/** Numbers as text in PNG chunks: the resumable test `png_check_fp_number`, the whole-string
    check (android/jni/libpng/png.c:2565-2706). */
module FpText {
  import opened Basics

  // ---- The automaton -------------------------------------------------------------------------

  datatype Phase = Integer | Fraction | Exponent

  /** The state word of the C code, one field per flag bit.  The first four flags belong to the
      current phase, the last three are sticky. */
  datatype State = State(phase: Phase, sawSign: bool, sawDigit: bool, sawDot: bool,
                         wasValid: bool, negative: bool, nonzero: bool)

  const START := State(Integer, false, false, false, false, false, false)

  predicate SawAny(st: State) {
    st.sawSign || st.sawDigit || st.sawDot
  }

  /** One character of the loop: `None` is the jump to the end of the function. */
  function Step(st: State, c: char): Option<State> {
    if c == '+' || c == '-' then
      if st.phase == Fraction || SawAny(st) then None
      else if st.phase == Integer then Some(st.(sawSign := true, negative := st.negative || c == '-'))
      else Some(st.(sawSign := true))
    else if c == '.' then
      if st.phase != Integer || st.sawDot then None
      else if st.sawDigit then Some(st.(sawDot := true))
      else Some(Set(st, Fraction, true))
    else if IsDigit(c) then
      if st.phase == Exponent then Some(st.(sawDigit := true, wasValid := true))
      else
        var st' := if st.phase == Integer && st.sawDot then Set(st, Fraction, true) else st;
        Some(st'.(sawDigit := true, wasValid := true, nonzero := st.nonzero || c != '0'))
    else if c == 'e' || c == 'E' then
      if st.phase == Exponent || !st.sawDigit then None
      else Some(Set(st, Exponent, false))
    else None
  }

  /** `png_fp_set`: a new phase that keeps the sticky flags only. */
  function Set(st: State, phase: Phase, dot: bool): State {
    State(phase, false, false, dot, st.wasValid, st.negative, st.nonzero)
  }

  /** The state and position at which the loop stops. */
  function Run(s: string, st: State, i: nat): (r: (State, nat))
    requires i <= |s|
    ensures i <= r.1 <= |s|
    decreases |s| - i
  {
    if i == |s| then (st, i)
    else match Step(st, s[i])
      case None => (st, i)
      case Some(st') => Run(s, st', i + 1)
  }

  // ---- The flag word ---------------------------------------------------------------------------

  const FP_FRACTION: bv16 := 1
  const FP_EXPONENT: bv16 := 2
  const FP_STATE: bv16 := 3
  const FP_SAW_SIGN: bv16 := 4
  const FP_SAW_DIGIT: bv16 := 8
  const FP_SAW_DOT: bv16 := 16
  const FP_SAW_E: bv16 := 32
  const FP_SAW_ANY: bv16 := 60
  const FP_WAS_VALID: bv16 := 64
  const FP_NEGATIVE: bv16 := 128
  const FP_NONZERO: bv16 := 256
  const FP_STICKY: bv16 := 448

  predicate Has(word: bv16, flag: bv16) {
    word & flag != 0
  }

  /** Words that the loop can reach: a phase, and no flag that only types of characters have. */
  predicate Flagged(word: bv16) {
    word < 512 && word & FP_STATE != FP_STATE && !Has(word, FP_SAW_E)
  }

  /** What a flag word says. */
  function Decoded(word: bv16): State {
    State(if word & FP_STATE == 0 then Integer else if word & FP_STATE == FP_FRACTION then Fraction else Exponent,
          Has(word, FP_SAW_SIGN), Has(word, FP_SAW_DIGIT), Has(word, FP_SAW_DOT),
          Has(word, FP_WAS_VALID), Has(word, FP_NEGATIVE), Has(word, FP_NONZERO))
  }

  /** The first `switch`: the flags of a character, 0 for one that is in no number. */
  function Type(c: char): bv16 {
    if c == '+' then FP_SAW_SIGN
    else if c == '-' then FP_SAW_SIGN + FP_NEGATIVE
    else if c == '.' then FP_SAW_DOT
    else if c == '0' then FP_SAW_DIGIT
    else if '1' <= c <= '9' then FP_SAW_DIGIT + FP_NONZERO
    else if c == 'e' || c == 'E' then FP_SAW_E
    else 0
  }

  /** The second `switch`, on the phase and the kind of the character; `png_fp_add` is `|`. */
  function NextWord(word: bv16, kind: bv16): Option<bv16> {
    var selector := (word & FP_STATE) + (kind & FP_SAW_ANY);
    if selector == FP_SAW_SIGN then
      if Has(word, FP_SAW_ANY) then None else Some(word | kind)
    else if selector == FP_SAW_DOT then
      if Has(word, FP_SAW_DOT) then None
      else if Has(word, FP_SAW_DIGIT) then Some(word | kind)
      else Some(Keep(word, FP_FRACTION | kind))
    else if selector == FP_SAW_DIGIT then
      Some((if Has(word, FP_SAW_DOT) then Keep(word, FP_FRACTION | FP_SAW_DOT) else word) | kind | FP_WAS_VALID)
    else if selector == FP_SAW_E then
      if !Has(word, FP_SAW_DIGIT) then None else Some(Keep(word, FP_EXPONENT))
    else if selector == FP_FRACTION + FP_SAW_DIGIT then Some(word | kind | FP_WAS_VALID)
    else if selector == FP_FRACTION + FP_SAW_E then
      if !Has(word, FP_SAW_DIGIT) then None else Some(Keep(word, FP_EXPONENT))
    else if selector == FP_EXPONENT + FP_SAW_SIGN then
      if Has(word, FP_SAW_ANY) then None else Some(word | FP_SAW_SIGN)
    else if selector == FP_EXPONENT + FP_SAW_DIGIT then Some(word | FP_SAW_DIGIT | FP_WAS_VALID)
    else None
  }

  /** `png_fp_set` */
  function Keep(word: bv16, value: bv16): bv16 {
    value | (word & FP_STICKY)
  }

  /** One round of the loop on the flag word is one step of the automaton on what it says. */
  lemma NextWordIsStep(word: bv16, c: char)
    requires Flagged(word)
    ensures Step(Decoded(word), c).Some? <==> Type(c) != 0 && NextWord(word, Type(c)).Some?
    ensures Step(Decoded(word), c).Some? ==>
              Flagged(NextWord(word, Type(c)).value)
                  && Decoded(NextWord(word, Type(c)).value) == Step(Decoded(word), c).value
  {
  }

  /** A flag word says no more than its automaton state. */
  lemma DecodedDetermines(v: bv16, w: bv16)
    requires Flagged(v) && Flagged(w) && Decoded(v) == Decoded(w)
    ensures v == w
  {
  }

  /** `png_check_fp_number` on its flag word. */
  method CheckFpNumber(s: string, statep: bv16, whereami0: nat) returns (ok: bool, state: bv16, whereami: nat)
    requires whereami0 <= |s| && Flagged(statep)
    ensures Flagged(state) && (Decoded(state), whereami) == Run(s, Decoded(statep), whereami0)
    ensures ok == Has(state, FP_SAW_DIGIT)
  {
    hide Step, Decoded, Flagged, NextWord, Type;
    state, whereami := statep, whereami0;
    while whereami < |s|
      invariant whereami <= |s| && Flagged(state)
      invariant Run(s, Decoded(state), whereami) == Run(s, Decoded(statep), whereami0)
    {
      NextWordIsStep(state, s[whereami]);
      var kind := Type(s[whereami]);
      if kind == 0 {
        break;
      }
      var next := NextWord(state, kind);
      if next.None? {
        break;
      }
      state := next.value;
      whereami := whereami + 1;
    }
    ok := Has(state, FP_SAW_DIGIT);
  }

  /** A whole string is accepted when the number ends at its end or at a NUL; 0 is failure. */
  method CheckFpString(s: string) returns (state: bv16)
    ensures state != 0 <==> Accepts(s)
    ensures state != 0 ==> Decoded(state) == Run(s, START, 0).0
  {
    assert Decoded(0) == START && Flagged(0);
    var ok, i;
    ok, state, i := CheckFpNumber(s, 0, 0);
    if !(ok && (i == |s| || s[i] == '\0')) {
      state := 0;
    }
  }

  predicate Accepts(s: string) {
    var (state, i) := Run(s, START, 0);
    state.sawDigit && (i == |s| || s[i] == '\0')
  }

  /** A run over a fully consumed piece followed by a run over the rest is one run. */
  lemma {:induction false} Resume(a: string, b: string, st: State, i: nat)
    requires i <= |a| && Run(a, st, i).1 == |a|
    ensures Run(a + b, st, i) == Run(a + b, Run(a, st, i).0, |a|)
    decreases |a| - i
  {
    if i == |a| {
    } else {
      assert (a + b)[i] == a[i];
      Resume(a, b, Step(st, a[i]).value, i + 1);
    }
  }

  // ---- The grammar ---------------------------------------------------------------------------

  /** The pieces of a number, possibly unfinished: sign, digits, dot, digits, exponent. */
  datatype Parts = Parts(sign: string, whole: string, dot: bool, fraction: string,
                         marker: string, expSign: string, expDigits: string)

  predicate IsSign(s: string) {
    s == "" || s == "+" || s == "-"
  }

  predicate Digits(s: string) {
    forall c :: c in s ==> IsDigit(c)
  }

  /** A prefix of a number. */
  predicate Sound(p: Parts) {
    && IsSign(p.sign) && Digits(p.whole) && Digits(p.fraction) && IsSign(p.expSign) && Digits(p.expDigits)
    && (p.fraction != "" ==> p.dot)
    && (p.marker == "" || p.marker == "e" || p.marker == "E")
    && (p.marker == "" ==> p.expSign == "" && p.expDigits == "")
    && (p.marker != "" ==> p.whole + p.fraction != "")
  }

  /** sign? (digits ('.' digits?)? | '.' digits) ([eE] sign? digits)? */
  predicate Complete(p: Parts) {
    Sound(p) && p.whole + p.fraction != "" && (p.marker != "" ==> p.expDigits != "")
  }

  function Mantissa(p: Parts): string {
    p.sign + p.whole + (if p.dot then "." else "") + p.fraction
  }

  function Text(p: Parts): string {
    Mantissa(p) + p.marker + p.expSign + p.expDigits
  }

  predicate HasNonzero(s: string) {
    exists c :: c in s && c != '0'
  }

  /** The state the automaton is in after the text of the parts. */
  function StateOf(p: Parts): State {
    var wasValid := p.whole != "" || p.fraction != "" || p.expDigits != "";
    var nonzero := HasNonzero(p.whole) || HasNonzero(p.fraction);
    if p.marker != "" then State(Exponent, p.expSign != "", p.expDigits != "", false, wasValid, p.sign == "-", nonzero)
    else if p.dot && (p.whole == "" || p.fraction != "") then
      State(Fraction, false, p.fraction != "", true, wasValid, p.sign == "-", nonzero)
    else State(Integer, p.sign != "", p.whole != "", p.dot, wasValid, p.sign == "-", nonzero)
  }

  /** The parts with one more character, where the grammar allows it. */
  function Extend(p: Parts, c: char): Option<Parts> {
    if p.marker != "" then
      if IsDigit(c) then Some(p.(expDigits := p.expDigits + [c]))
      else if (c == '+' || c == '-') && p.expSign == "" && p.expDigits == "" then Some(p.(expSign := [c]))
      else None
    else if IsDigit(c) then
      if p.dot then Some(p.(fraction := p.fraction + [c])) else Some(p.(whole := p.whole + [c]))
    else if c == '.' && !p.dot then Some(p.(dot := true))
    else if (c == 'e' || c == 'E') && p.whole + p.fraction != "" then Some(p.(marker := [c]))
    else if (c == '+' || c == '-') && p.sign == "" && p.whole == "" && !p.dot then Some(p.(sign := [c]))
    else None
  }

  lemma HasNonzeroSnoc(s: string, c: char)
    ensures HasNonzero(s + [c]) <==> HasNonzero(s) || c != '0'
  {
    if c != '0' {
      assert c in s + [c];
    }
    if HasNonzero(s) {
      var d :| d in s && d != '0';
      assert d in s + [c];
    }
  }

  lemma ExtendText(p: Parts, c: char)
    requires Sound(p)
    ensures Extend(p, c).Some? ==> Text(Extend(p, c).value) == Text(p) + [c]
  {
  }

  lemma ExtendSound(p: Parts, c: char)
    requires Sound(p)
    ensures Extend(p, c).Some? ==> Sound(Extend(p, c).value)
  {
  }

  /** The automaton takes a character exactly when the grammar does, and stays on the state of the parts. */
  lemma StepIsExtend(p: Parts, c: char)
    requires Sound(p)
    ensures Extend(p, c).None? ==> Step(StateOf(p), c).None?
    ensures Extend(p, c).Some? ==> Step(StateOf(p), c) == Some(StateOf(Extend(p, c).value))
  {
    hide HasNonzero;
    HasNonzeroSnoc(p.whole, c);
    HasNonzeroSnoc(p.fraction, c);
    assert !HasNonzero("") by { NothingNonzero(); }
  }

  lemma NothingNonzero()
    ensures !HasNonzero("")
  {
  }

  /** Wherever a run stops, the consumed text has parts, and they do not extend by the next character. */
  lemma {:induction false} RunHasParts(s: string, p: Parts, i: nat) returns (p': Parts)
    requires i <= |s| && Sound(p) && Text(p) == s[..i]
    ensures Sound(p') && Text(p') == s[..Run(s, StateOf(p), i).1] && StateOf(p') == Run(s, StateOf(p), i).0
    decreases |s| - i
  {
    p' := p;
    if i < |s| {
      hide Sound, Text, StateOf, Extend, Step;
      StepIsExtend(p, s[i]);
      ExtendSound(p, s[i]);
      ExtendText(p, s[i]);
      if Extend(p, s[i]).Some? {
        assert s[..i] + [s[i]] == s[..i + 1];
        p' := RunHasParts(s, Extend(p, s[i]).value, i + 1);
      }
    }
  }

  function Init(s: string): string
    requires s != ""
  {
    s[..|s| - 1]
  }

  /** The parts without their last character. */
  function Shrink(p: Parts): Parts
    requires Sound(p) && Text(p) != ""
  {
    if p.expDigits != "" then p.(expDigits := Init(p.expDigits))
    else if p.expSign != "" then p.(expSign := "")
    else if p.marker != "" then p.(marker := "")
    else if p.fraction != "" then p.(fraction := Init(p.fraction))
    else if p.dot then p.(dot := false)
    else if p.whole != "" then p.(whole := Init(p.whole))
    else p.(sign := "")
  }

  function LastChar(p: Parts): char
    requires Sound(p) && Text(p) != ""
  {
    if p.expDigits != "" then p.expDigits[|p.expDigits| - 1]
    else if p.expSign != "" then p.expSign[0]
    else if p.marker != "" then p.marker[0]
    else if p.fraction != "" then p.fraction[|p.fraction| - 1]
    else if p.dot then '.'
    else if p.whole != "" then p.whole[|p.whole| - 1]
    else p.sign[0]
  }

  lemma InitAndLast(s: string)
    requires s != ""
    ensures Init(s) + [s[|s| - 1]] == s && (Digits(s) ==> Digits(Init(s)) && IsDigit(s[|s| - 1]))
  {
  }

  lemma ShrinkExponent(p: Parts)
    requires Sound(p) && Text(p) != "" && p.marker != ""
    ensures Sound(Shrink(p)) && Extend(Shrink(p), LastChar(p)) == Some(p)
  {
    hide Text, Digits;
    if p.expDigits != "" {
      InitAndLast(p.expDigits);
    }
  }

  lemma ShrinkMantissa(p: Parts)
    requires Sound(p) && Text(p) != "" && p.marker == ""
    ensures Sound(Shrink(p)) && Extend(Shrink(p), LastChar(p)) == Some(p)
  {
    hide Digits;
    if p.fraction != "" {
      InitAndLast(p.fraction);
    } else if !p.dot && p.whole != "" {
      InitAndLast(p.whole);
    }
  }

  lemma ShrinkExtends(p: Parts)
    requires Sound(p) && Text(p) != ""
    ensures Sound(Shrink(p)) && Extend(Shrink(p), LastChar(p)) == Some(p)
  {
    hide Sound, Text, Shrink, LastChar, Extend;
    if p.marker != "" {
      ShrinkExponent(p);
    } else {
      ShrinkMantissa(p);
    }
  }

  /** The text of any sound parts is consumed to its end and leaves the state of the parts. */
  lemma {:induction false} PartsRun(p: Parts)
    requires Sound(p)
    ensures Run(Text(p), START, 0) == (StateOf(p), |Text(p)|)
    decreases |Text(p)|
  {
    if Text(p) == "" {
    } else {
      ShrinkExtends(p);
      var q, c := Shrink(p), LastChar(p);
      ExtendText(q, c);
      PartsRun(q);
      StepIsExtend(q, c);
      Resume(Text(q), [c], START, 0);
    }
  }

  lemma {:induction false} UpToNulUnique(s: string, t: string)
    requires t <= s && '\0' !in t && (t == s || s[|t|] == '\0')
    ensures t == UpToNul(s)
    decreases |t|
  {
    if t != "" {
      assert t[0] in t && t == [t[0]] + t[1..];
      UpToNulUnique(s[1..], t[1..]);
    }
  }

  lemma NoNulInText(p: Parts)
    requires Sound(p)
    ensures '\0' !in Text(p)
  {
  }

  predicate NumberWith(s: string, p: Parts) {
    Complete(p) && Text(p) == s
  }

  lemma CompleteIff(p: Parts)
    requires Sound(p)
    ensures Complete(p) <==> StateOf(p).sawDigit
  {
  }

  /** A string is accepted exactly when what stands before its first NUL is a complete number. */
  lemma AcceptsIff(s: string)
    ensures Accepts(s) <==> exists p :: NumberWith(UpToNul(s), p)
  {
    if Accepts(s) {
      var p := RunHasParts(s, Parts("", "", false, "", "", "", ""), 0);
      CompleteIff(p);
      NoNulInText(p);
      UpToNulUnique(s, Text(p));
      assert NumberWith(UpToNul(s), p);
    }
    if p :| NumberWith(UpToNul(s), p) {
      NumberIsAccepted(s, p);
    }
  }

  /** An accepted number leaves flags that say: the mantissa has a minus sign, and a non-zero digit. */
  lemma NumberIsAccepted(s: string, p: Parts)
    requires NumberWith(UpToNul(s), p)
    ensures Accepts(s)
    ensures Run(s, START, 0).0.negative <==> p.sign == "-"
    ensures Run(s, START, 0).0.nonzero <==> HasNonzero(p.whole) || HasNonzero(p.fraction)
    ensures Run(s, START, 0).0.wasValid
  {
    PartsRun(p);
    CompleteIff(p);
    var t := Text(p);
    assert s == t + s[|t|..];
    Resume(t, s[|t|..], START, 0);
  }
}
