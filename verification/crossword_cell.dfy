/** One cell of the player's crossword grid: how its text field reacts to typing,
    key presses, pasting and a new `value` from the grid. A reaction is the cell's
    new text, the value reported through `onChange` (if any) and the direction
    reported through `onNavigate` (if any). */
module CrosswordCell {
  import opened Options

  datatype Direction = Next | Previous | Left | Right | Up | Down

  datatype Event =
    | Typed(newValue: string)      // the field's change event, with its new text
    | KeyDown(key: string)         // `KeyboardEvent.key`
    | Pasted(text: string)         // the clipboard's text
    | ValueChanged(value: string)  // the `value` prop changes

  /** What the cell is given: whether it is black, and whether `onNavigate` is set. */
  datatype Props = Props(isBlackCell: bool, hasNavigate: bool)

  datatype Reaction = Reaction(inputValue: string, changed: Option<string>, navigate: Option<Direction>)

  // ---------------------------------------------------------------------------
  // Characters

  /** `toUpperCase` of one character: the Latin-1 table, and every character outside
      it whose upper case contains a character of the letter class (`ı`, `ſ`, `ŉ`, `ǰ`,
      `ẖ` to `ẚ`, the Latin ligatures). Every other character is taken as its own
      upper case; neither is in the letter class then. */
  function UpperCase(c: char): (u: string)
    ensures |u| >= 1
  {
    if 'a' <= c <= 'z' || ('à' <= c <= 'þ' && c != '÷') then [(c as int - 0x20) as char]
    else if c == 'ß' then "SS"
    else if c == 'ÿ' then ['\U{178}']
    else if c == 'µ' then ['\U{39C}']
    else if c == '\U{131}' then "I"
    else if c == '\U{17F}' then "S"
    else if c == '\U{149}' then ['\U{2BC}', 'N']
    else if c == '\U{FB00}' then "FF"
    else if c == '\U{FB01}' then "FI"
    else if c == '\U{FB02}' then "FL"
    else if c == '\U{FB03}' then "FFI"
    else if c == '\U{FB04}' then "FFL"
    else if c == '\U{FB05}' || c == '\U{FB06}' then "ST"
    else if c == '\U{1F0}' then ['J', '\U{30C}']
    else if c == '\U{1E96}' then ['H', '\U{331}']
    else if c == '\U{1E97}' then ['T', '\U{308}']
    else if c == '\U{1E98}' then ['W', '\U{30A}']
    else if c == '\U{1E99}' then ['Y', '\U{30A}']
    else if c == '\U{1E9A}' then ['A', '\U{2BE}']
    else [c]
  }

  /** A character the class `[A-ZÀ-ÿ]` matches under the `i` flag: the ranges
      themselves, the lower-case ASCII letters, and `Ÿ`, whose lower case `ÿ` is
      in the class. */
  predicate InLetterClass(c: char) {
    || 'A' <= c <= 'Z'
    || 'a' <= c <= 'z'
    || 'À' <= c <= 'ÿ'
    || c == '\U{178}'
  }

  /** A letter: a character of the letter class other than the signs `×` and `÷`,
      which the range `À-ÿ` also covers. */
  predicate IsLetter(c: char) {
    InLetterClass(c) && c != '×' && c != '÷'
  }

  /** The upper case of `c` when it is one character; `c` itself when upper-casing
      would turn it into several (`ß`, the ligatures). */
  function Normalize(c: char): (n: char)
    ensures |UpperCase(c)| == 1 ==> n == UpperCase(c)[0]
    ensures |UpperCase(c)| != 1 ==> n == c
  {
    var u := UpperCase(c);
    if |u| == 1 then u[0] else c
  }

  /** The character rules a cell applies: the ones the component has, or the ones
      it evidently means (one letter per cell, no signs). */
  datatype Rules = AsWritten | Corrected

  predicate Accepts(rules: Rules, c: char) {
    if rules.AsWritten? then InLetterClass(c) else IsLetter(c)
  }

  /** The text a cell stores for the accepted character `c`. */
  function Upper(rules: Rules, c: char): (u: string)
    ensures |u| >= 1
    ensures rules.Corrected? ==> |u| == 1 && (IsLetter(c) ==> WellFormed(u))
  {
    if rules.AsWritten? then UpperCase(c) else [Normalize(c)]
  }

  /** `s` contains a character the rules accept (`s.match(...)` is not null). */
  predicate Matches(rules: Rules, s: string) {
    exists i :: 0 <= i < |s| && Accepts(rules, s[i])
  }

  /** The accepted characters of `s`, in order: the list a global match returns. */
  function Letters(rules: Rules, s: string): (r: string)
    ensures |r| <= |s|
    ensures forall i :: 0 <= i < |r| ==> Accepts(rules, r[i])
    ensures |r| == 0 <==> !Matches(rules, s)
  {
    if |s| == 0 then ""
    else
      var rest := Letters(rules, s[..|s| - 1]);
      var c := s[|s| - 1];
      assert forall i :: 0 <= i < |s| - 1 ==> s[..|s| - 1][i] == s[i];
      if Accepts(rules, c) then rest + [c] else rest
  }

  // ---------------------------------------------------------------------------
  // Handlers

  function Navigation(props: Props, d: Direction): (r: Option<Direction>)
    ensures r.Some? <==> props.hasNavigate
    ensures r.Some? ==> r.value == d
  {
    if props.hasNavigate then Some(d) else None
  }

  /** Typing: the last character of the field's text, upper-cased, replaces the
      cell's text if it is a letter, and the cell asks to move on; anything else is
      ignored. A field emptied by the user clears the cell. */
  function OnInput(rules: Rules, props: Props, value: string, newValue: string): (r: Reaction)
    ensures newValue == "" ==> r == Reaction("", Some(""), None)
    ensures newValue != "" && !Matches(rules, Upper(rules, newValue[|newValue| - 1]))
      ==> r == Reaction(value, None, None)
    ensures newValue != "" && Matches(rules, Upper(rules, newValue[|newValue| - 1]))
      ==> r.inputValue == Upper(rules, newValue[|newValue| - 1])
          && r.changed == Some(r.inputValue) && r.navigate == Navigation(props, Next)
  {
    if |newValue| > 0 then
      var finalChar := Upper(rules, newValue[|newValue| - 1]);
      if Matches(rules, finalChar) then Reaction(finalChar, Some(finalChar), Navigation(props, Next))
      else Reaction(value, None, None)
    else Reaction("", Some(""), None)
  }

  /** The direction an arrow key asks for; `None` for every other key. */
  function ArrowDirection(key: string): (r: Option<Direction>)
    ensures r.Some? ==> r.value in {Left, Right, Up, Down}
    ensures r == Some(Left) <==> key == "ArrowLeft"
    ensures r == Some(Right) <==> key == "ArrowRight"
    ensures r == Some(Up) <==> key == "ArrowUp"
    ensures r == Some(Down) <==> key == "ArrowDown"
  {
    if key == "ArrowLeft" then Some(Left)
    else if key == "ArrowRight" then Some(Right)
    else if key == "ArrowUp" then Some(Up)
    else if key == "ArrowDown" then Some(Down)
    else None
  }

  /** Key presses: Backspace clears a filled cell or, on an empty one, asks to move
      back; an arrow asks to move that way; a letter key empties the cell's text
      (without reporting it) so that the letter typed next replaces it. */
  function OnKeyDown(rules: Rules, props: Props, value: string, key: string): (r: Reaction)
    ensures key == "Backspace" && value != "" ==> r == Reaction("", Some(""), None)
    ensures key == "Backspace" && value == "" ==> r == Reaction("", None, Navigation(props, Previous))
    ensures key != "Backspace" ==> r.changed.None?
    ensures key != "Backspace" && props.hasNavigate ==> r.navigate == ArrowDirection(key)
    ensures key != "Backspace" && !props.hasNavigate ==> r.navigate.None?
    ensures key != "Backspace" ==> r.inputValue == (if |key| == 1 && Accepts(rules, key[0]) then "" else value)
  {
    if key == "Backspace" then
      if value != "" then Reaction("", Some(""), None)
      else Reaction(value, None, Navigation(props, Previous))
    else
      var navigate := if props.hasNavigate then ArrowDirection(key) else None;
      var v := if |key| == 1 && Accepts(rules, key[0]) then "" else value;
      Reaction(v, None, navigate)
  }

  /** Pasting: the last letter of the pasted text, upper-cased, fills the cell and
      the cell asks to move on; text without letters is ignored. */
  function OnPaste(rules: Rules, props: Props, value: string, text: string): (r: Reaction)
    ensures !Matches(rules, text) ==> r == Reaction(value, None, None)
    ensures Matches(rules, text) ==>
      && r.inputValue == Upper(rules, Letters(rules, text)[|Letters(rules, text)| - 1])
      && r.changed == Some(r.inputValue) && r.navigate == Navigation(props, Next)
  {
    if text == "" then Reaction(value, None, None)
    else
      var letters := Letters(rules, text);
      if |letters| > 0 then
        var lastLetter := Upper(rules, letters[|letters| - 1]);
        Reaction(lastLetter, Some(lastLetter), Navigation(props, Next))
      else Reaction(value, None, None)
  }

  /** The cell's reaction to one event. A black cell has no text field, so only a
      new `value` reaches it. */
  function Step(rules: Rules, props: Props, value: string, e: Event): (r: Reaction)
    ensures r.changed.Some? ==> r.changed.value == r.inputValue
    ensures r.navigate == Some(Next) ==> r.changed.Some? && r.inputValue != ""
    ensures r.navigate == Some(Previous) ==> value == "" && r.changed.None?
    ensures r.navigate.Some? ==> props.hasNavigate && !props.isBlackCell
    ensures props.isBlackCell && !e.ValueChanged? ==> r == Reaction(value, None, None)
    ensures e.ValueChanged? ==> r == Reaction(e.value, None, None)
    ensures !props.isBlackCell && e.Typed? ==> r == OnInput(rules, props, value, e.newValue)
    ensures !props.isBlackCell && e.KeyDown? ==> r == OnKeyDown(rules, props, value, e.key)
    ensures !props.isBlackCell && e.Pasted? ==> r == OnPaste(rules, props, value, e.text)
  {
    match e
    case ValueChanged(v) => Reaction(v, None, None)
    case _ =>
      if props.isBlackCell then Reaction(value, None, None)
      else
        match e
        case Typed(s) => OnInput(rules, props, value, s)
        case KeyDown(k) => OnKeyDown(rules, props, value, k)
        case Pasted(t) => OnPaste(rules, props, value, t)
  }

  // ---------------------------------------------------------------------------
  // Properties

  /** What a cell can hold: nothing, or one letter already in its stored case. */
  predicate WellFormed(v: string) {
    v == "" || (|v| == 1 && IsLetter(v[0]) && Normalize(v[0]) == v[0])
  }

  /** Normalizing a letter gives a letter in stored case. */
  lemma NormalizeLetter(c: char)
    requires IsLetter(c)
    ensures IsLetter(Normalize(c)) && Normalize(Normalize(c)) == Normalize(c)
  {
  }

  /** Every event keeps a cell well formed, given that a new `value` is one. */
  lemma StepKeepsCellWellFormed(props: Props, value: string, e: Event)
    requires WellFormed(value)
    requires e.ValueChanged? ==> WellFormed(e.value)
    ensures WellFormed(Step(Corrected, props, value, e).inputValue)
  {
    var r := Step(Corrected, props, value, e);
    if !props.isBlackCell {
      match e
      case Typed(s) =>
        if s != "" {
          var c := s[|s| - 1];
          var u := Upper(Corrected, c);
          if Matches(Corrected, u) {
            NormalizeStoredCase(c);
          }
        }
      case Pasted(t) =>
        var letters := Letters(Corrected, t);
        if |letters| > 0 {
          NormalizeLetter(letters[|letters| - 1]);
        }
      case _ =>
    }
  }

  /** The stored case of any character is a fixed point of normalizing. */
  lemma NormalizeStoredCase(c: char)
    ensures Normalize(Normalize(c)) == Normalize(c)
  {
  }

  /** On a letter, typing it and pasting it have the same effect. */
  lemma TypingAndPastingAgree(props: Props, value: string, c: char)
    requires IsLetter(c)
    ensures OnInput(Corrected, props, value, [c]) == OnPaste(Corrected, props, value, [c])
  {
    NormalizeLetter(c);
    assert Letters(Corrected, [c]) == [c] by {
      assert [c][..0] == [];
    }
    assert Matches(Corrected, [Normalize(c)]) by {
      assert Accepts(Corrected, [Normalize(c)][0]);
    }
  }

  /** Pasting keeps the last letter: text after it that has no letter changes nothing. */
  lemma {:induction false} LettersIgnoreTrailingNonLetters(rules: Rules, a: string, c: char, b: string)
    requires Accepts(rules, c)
    requires forall i :: 0 <= i < |b| ==> !Accepts(rules, b[i])
    ensures Letters(rules, a + [c] + b) == Letters(rules, a) + [c]
  {
    if |b| == 0 {
      assert (a + [c] + b)[..|a + [c] + b| - 1] == a;
    } else {
      var s := a + [c] + b;
      var b0 := b[..|b| - 1];
      assert s[..|s| - 1] == a + [c] + b0;
      assert s[|s| - 1] == b[|b| - 1];
      LettersIgnoreTrailingNonLetters(rules, a, c, b0);
    }
  }

  /** Pasting text whose last letter is `c` fills the cell with `c`'s stored form. */
  lemma PasteTakesLastLetter(rules: Rules, props: Props, value: string, a: string, c: char, b: string)
    requires Accepts(rules, c)
    requires forall i :: 0 <= i < |b| ==> !Accepts(rules, b[i])
    ensures OnPaste(rules, props, value, a + [c] + b)
      == Reaction(Upper(rules, c), Some(Upper(rules, c)), Navigation(props, Next))
  {
    LettersIgnoreTrailingNonLetters(rules, a, c, b);
    var s := a + [c] + b;
    assert s[|a|] == c;
  }

  /** Backspace on a filled cell clears it, and a second Backspace asks to move back. */
  lemma BackspaceClearsThenMovesBack(rules: Rules, props: Props, value: string)
    requires !props.isBlackCell && value != ""
    ensures
      var first := Step(rules, props, value, KeyDown("Backspace"));
      && first == Reaction("", Some(""), None)
      && Step(rules, props, first.inputValue, KeyDown("Backspace")).navigate == Navigation(props, Previous)
  {
  }

  /** The letter class ignores case on Latin-1: a character that upper-cases to one
      character is in the class exactly when its upper case is. */
  lemma LetterClassIsCaseInsensitive(c: char)
    requires c as int < 0x100 && |UpperCase(c)| == 1
    ensures InLetterClass(c) <==> InLetterClass(UpperCase(c)[0])
  {
  }

  /** Typing a Latin-1 character outside the letter class (a digit, a sign, a space)
      changes nothing, under either rules. */
  lemma NonLetterTypedIsIgnored(rules: Rules, props: Props, value: string, c: char)
    requires c as int < 0x100 && !InLetterClass(c)
    ensures OnInput(rules, props, value, [c]) == Reaction(value, None, None)
  {
    var u := Upper(rules, c);
    assert |u| == 1 && !Accepts(rules, u[0]);
    assert [c][|[c]| - 1] == c;
  }

  /** Outside Latin-1 the upper case decides: `ı` is not in the letter class, yet typing
      it fills the cell with `I`. */
  lemma DotlessIFillsCellWithI(rules: Rules, props: Props, value: string)
    ensures !InLetterClass('\U{131}')
    ensures OnInput(rules, props, value, "\U{131}").inputValue == "I"
  {
    assert Upper(rules, '\U{131}') == "I";
    assert Matches(rules, "I") by { assert Accepts(rules, "I"[0]); }
  }

  /** As written, `ß` typed or pasted into a cell fills it with two letters. */
  lemma SharpSFillsCellWithTwoLetters(props: Props, value: string)
    requires !props.isBlackCell
    ensures Step(AsWritten, props, value, Typed("ß")).inputValue == "SS"
    ensures Step(AsWritten, props, value, Pasted("ß")).inputValue == "SS"
    ensures !WellFormed("SS")
  {
    SharpSUpperCase();
    SharpSTyped(props, value);
    SharpSPasted(props, value);
  }

  lemma SharpSUpperCase()
    ensures Upper(AsWritten, 'ß') == "SS" && Matches(AsWritten, "SS")
  {
    assert Accepts(AsWritten, "SS"[0]);
  }

  lemma SharpSTyped(props: Props, value: string)
    requires Upper(AsWritten, 'ß') == "SS" && Matches(AsWritten, "SS")
    ensures OnInput(AsWritten, props, value, "ß").inputValue == "SS"
  {
    assert "ß"[|"ß"| - 1] == 'ß';
  }

  lemma SharpSPasted(props: Props, value: string)
    requires Upper(AsWritten, 'ß') == "SS"
    ensures OnPaste(AsWritten, props, value, "ß").inputValue == "SS"
  {
    assert Letters(AsWritten, "ß") == "ß" by { assert "ß"[..0] == ""; }
  }

  /** As written, the signs `×` and `÷` are taken for letters. */
  lemma SignsPassLetterClass(props: Props, value: string)
    requires !props.isBlackCell
    ensures Step(AsWritten, props, value, Typed("×")).inputValue == "×"
    ensures Step(AsWritten, props, value, Typed("÷")).inputValue == "÷"
    ensures !WellFormed("×") && !WellFormed("÷")
  {
    assert Matches(AsWritten, "×") by { assert Accepts(AsWritten, "×"[0]); }
    assert Matches(AsWritten, "÷") by { assert Accepts(AsWritten, "÷"[0]); }
  }
}
