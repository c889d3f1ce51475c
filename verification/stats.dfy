/** Aggregate player statistics: one tally per (day, language), bumped each time a
    puzzle is solved. The day is whatever calendar day the server assigns to the
    submission; it is an input here. */
module Stats {

  /** The bucket a tally belongs to. */
  datatype Key = Key(day: int, language: string)

  /** Puzzles completed and total time spent, for one bucket. */
  datatype Tally = Tally(completed: nat, timeSpent: int)

  type Store = map<Key, Tally>

  /** Records one solved puzzle: an existing tally gains one completion and `timeSpent`;
      a missing one is created as one completion with `timeSpent`. */
  function RecordSolve(stats: Store, key: Key, timeSpent: int): (r: Store)
    ensures r.Keys == stats.Keys + {key}
    ensures key in stats ==> r[key] == Tally(stats[key].completed + 1, stats[key].timeSpent + timeSpent)
    ensures key !in stats ==> r[key] == Tally(1, timeSpent)
    ensures forall k :: k in stats && k != key ==> r[k] == stats[k]
  {
    if key in stats then
      stats[key := Tally(stats[key].completed + 1, stats[key].timeSpent + timeSpent)]
    else
      stats[key := Tally(1, timeSpent)]
  }

  /** One solved puzzle, as far as the statistics are concerned. */
  datatype Solve = Solve(key: Key, timeSpent: int)

  /** The statistics after recording `solves` in order. */
  function RecordAll(stats: Store, solves: seq<Solve>): Store
    decreases |solves|
  {
    if |solves| == 0 then stats
    else RecordAll(RecordSolve(stats, solves[0].key, solves[0].timeSpent), solves[1..])
  }

  /** How many of `solves` fall in bucket `k`. */
  function CountFor(solves: seq<Solve>, k: Key): nat {
    if |solves| == 0 then 0
    else (if solves[0].key == k then 1 else 0) + CountFor(solves[1..], k)
  }

  /** Total time of the `solves` that fall in bucket `k`. */
  function TimeFor(solves: seq<Solve>, k: Key): int {
    if |solves| == 0 then 0
    else (if solves[0].key == k then solves[0].timeSpent else 0) + TimeFor(solves[1..], k)
  }

  /** Tally of bucket `k` in `stats`, reading a missing tally as zero. */
  function TallyOf(stats: Store, k: Key): Tally {
    if k in stats then stats[k] else Tally(0, 0)
  }

  /** No increment is lost in a sequence of solves: every bucket's tally grows by the
      number of solves in that bucket and by their total time. */
  lemma {:induction false} RecordAllCounts(stats: Store, solves: seq<Solve>, k: Key)
    ensures TallyOf(RecordAll(stats, solves), k).completed == TallyOf(stats, k).completed + CountFor(solves, k)
    ensures TallyOf(RecordAll(stats, solves), k).timeSpent == TallyOf(stats, k).timeSpent + TimeFor(solves, k)
    ensures k in RecordAll(stats, solves) <==> k in stats || CountFor(solves, k) > 0
    decreases |solves|
  {
    if |solves| > 0 {
      RecordAllCounts(RecordSolve(stats, solves[0].key, solves[0].timeSpent), solves[1..], k);
    }
  }
}
