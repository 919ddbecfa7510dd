/** The byte-order-mark wrappers of `lib/bom-handling.ts`. `PrependBOM` puts U+FEFF in front of
    the first string an inner encoder sees; `StripBOM` removes one leading U+FEFF from the first
    non-empty text an inner decoder produces. The inner codec is any state with `write` and `end`
    step functions, passed in as function values. */
module Bom {
  import opened Base

  const BOM_CHAR: Unit := 0xFEFF

  // ---------------------------------------------------------------------------
  // PrependBOM

  datatype Prepend<S> = Prepend(inner: S, addBOM: bool)

  function NewPrepend<S>(inner: S): Prepend<S> {
    Prepend(inner, true)
  }

  /** `PrependBOM.write`: the first call hands U+FEFF followed by `str` to the inner encoder and
      clears `addBOM`; every later call hands `str` over unchanged. */
  function PrependWrite<S, O>(p: Prepend<S>, str: seq<Unit>, write: (S, seq<Unit>) -> (S, O))
    : (r: (Prepend<S>, O))
    ensures !r.0.addBOM
    ensures p.addBOM ==> r == (Prepend(write(p.inner, [BOM_CHAR] + str).0, false), write(p.inner, [BOM_CHAR] + str).1)
    ensures !p.addBOM ==> r == (Prepend(write(p.inner, str).0, false), write(p.inner, str).1)
  {
    var s := if p.addBOM then [BOM_CHAR] + str else str;
    var w := write(p.inner, s);
    (Prepend(w.0, false), w.1)
  }

  /** `PrependBOM.end`: the inner encoder's `end`. */
  function PrependEnd<S, O>(p: Prepend<S>, end: S -> O): (r: O) {
    end(p.inner)
  }

  /** The inner codec's outputs for a series of writes followed by `end`. */
  function RunInner<S, I, O>(s: S, inputs: seq<I>, write: (S, I) -> (S, seq<O>), end: S -> seq<O>)
    : (r: seq<O>)
    decreases |inputs|
  {
    if |inputs| == 0 then end(s)
    else
      var w := write(s, inputs[0]);
      w.1 + RunInner(w.0, inputs[1..], write, end)
  }

  /** A series of writes followed by `end` through a `PrependBOM`. */
  function RunPrepend<S, O>(p: Prepend<S>, inputs: seq<seq<Unit>>,
                            write: (S, seq<Unit>) -> (S, seq<O>), end: S -> seq<O>): (r: seq<O>)
    decreases |inputs|
  {
    if |inputs| == 0 then PrependEnd(p, end)
    else
      var w := PrependWrite(p, inputs[0], write);
      w.1 + RunPrepend(w.0, inputs[1..], write, end)
  }

  /** Once the BOM has gone out, the wrapper is transparent. */
  lemma {:induction false} PrependIsTransparentAfterFirst<S, O>(
    inner: S, inputs: seq<seq<Unit>>, write: (S, seq<Unit>) -> (S, seq<O>), end: S -> seq<O>)
    ensures RunPrepend(Prepend(inner, false), inputs, write, end) == RunInner(inner, inputs, write, end)
    decreases |inputs|
  {
    if |inputs| > 0 {
      PrependIsTransparentAfterFirst(write(inner, inputs[0]).0, inputs[1..], write, end);
    }
  }

  /** A fresh `PrependBOM` behaves as the inner encoder run on the same strings with U+FEFF in
      front of the first one, and exactly one BOM is added however many strings are written. */
  lemma PrependAddsOneBom<S, O>(
    inner: S, inputs: seq<seq<Unit>>, write: (S, seq<Unit>) -> (S, seq<O>), end: S -> seq<O>)
    requires |inputs| > 0
    ensures RunPrepend(NewPrepend(inner), inputs, write, end)
            == RunInner(inner, [[BOM_CHAR] + inputs[0]] + inputs[1..], write, end)
  {
    var w := write(inner, [BOM_CHAR] + inputs[0]);
    PrependIsTransparentAfterFirst(w.0, inputs[1..], write, end);
    var shifted := [[BOM_CHAR] + inputs[0]] + inputs[1..];
    assert shifted[0] == [BOM_CHAR] + inputs[0] && shifted[1..] == inputs[1..];
  }

  /** With a stateless inner encoder that encodes piecewise (as the UTF-16BE encoder does), the
      whole output is the encoding of U+FEFF followed by the concatenated input. */
  lemma PrependOnStatelessEncoder<S, B>(
    inner: S, inputs: seq<seq<Unit>>, enc: seq<Unit> -> seq<B>, write: (S, seq<Unit>) -> (S, seq<B>),
    end: S -> seq<B>)
    requires |inputs| > 0
    requires forall s, str :: write(s, str) == (s, enc(str))
    requires forall s :: end(s) == []
    requires forall a, b :: enc(a + b) == enc(a) + enc(b)
    ensures RunPrepend(NewPrepend(inner), inputs, write, end) == enc([BOM_CHAR] + Concat(inputs))
  {
    PrependAddsOneBom(inner, inputs, write, end);
    var shifted := [[BOM_CHAR] + inputs[0]] + inputs[1..];
    StatelessRun(inner, shifted, enc, write, end);
    assert Concat(shifted) == [BOM_CHAR] + Concat(inputs) by {
      assert shifted[1..] == inputs[1..];
      AppendAssoc([BOM_CHAR], inputs[0], Concat(inputs[1..]));
    }
  }

  lemma {:induction false} StatelessRun<S, B>(
    inner: S, inputs: seq<seq<Unit>>, enc: seq<Unit> -> seq<B>, write: (S, seq<Unit>) -> (S, seq<B>),
    end: S -> seq<B>)
    requires forall s, str :: write(s, str) == (s, enc(str))
    requires forall s :: end(s) == []
    requires forall a, b :: enc(a + b) == enc(a) + enc(b)
    ensures RunInner(inner, inputs, write, end) == enc(Concat(inputs))
    decreases |inputs|
  {
    if |inputs| == 0 {
      var none: seq<Unit> := [];
      assert none + none == none;
      assert enc(none + none) == enc(none) + enc(none);
      assert |enc(none)| == 0;
    } else {
      StatelessRun(inner, inputs[1..], enc, write, end);
    }
  }

  // ---------------------------------------------------------------------------
  // StripBOM

  datatype Strip<S> = Strip(inner: S, pass: bool)

  function NewStrip<S>(inner: S): Strip<S> {
    Strip(inner, false)
  }

  /** The result of one `StripBOM.write`: the new state, the text returned, and whether the
      `stripBOM` callback was called. */
  datatype StripStep<S> = StripStep(state: Strip<S>, text: seq<Unit>, calledBack: bool)

  /** `StripBOM.write`. While `pass` is unset, an empty inner result is returned as is and keeps
      the wrapper waiting; the first non-empty result loses one leading U+FEFF, if it has one
      (and only then is the callback called), and sets `pass`. From then on results pass
      through. */
  function StripWrite<S, B>(p: Strip<S>, buf: B, write: (S, B) -> (S, seq<Unit>)): (r: StripStep<S>)
    ensures var w := write(p.inner, buf);
            && r.state.inner == w.0
            && (p.pass || |w.1| == 0 ==> r.text == w.1 && r.state.pass == p.pass && !r.calledBack)
            && (!p.pass && |w.1| > 0 ==>
                  r.state.pass
                  && r.calledBack == (w.1[0] == BOM_CHAR)
                  && w.1 == (if r.calledBack then [BOM_CHAR] else []) + r.text)
  {
    var w := write(p.inner, buf);
    var res := w.1;
    if p.pass || |res| == 0 then StripStep(Strip(w.0, p.pass), res, false)
    else if res[0] == BOM_CHAR then StripStep(Strip(w.0, true), res[1..], true)
    else StripStep(Strip(w.0, true), res, false)
  }

  /** `StripBOM.end`: the inner decoder's `end`. */
  function StripEnd<S>(p: Strip<S>, end: S -> seq<Unit>): (r: seq<Unit>) {
    end(p.inner)
  }

  /** A series of writes followed by `end` through a `StripBOM`: the text and the number of
      callback calls. */
  function RunStrip<S, B>(p: Strip<S>, inputs: seq<B>, write: (S, B) -> (S, seq<Unit>),
                          end: S -> seq<Unit>): (r: (seq<Unit>, nat))
    decreases |inputs|
  {
    if |inputs| == 0 then (StripEnd(p, end), 0)
    else
      var w := StripWrite(p, inputs[0], write);
      var rest := RunStrip(w.state, inputs[1..], write, end);
      (w.text + rest.0, rest.1 + if w.calledBack then 1 else 0)
  }

  /** Once `pass` is set the wrapper is transparent and never calls back. */
  lemma {:induction false} StripIsTransparentAfterPass<S, B>(
    inner: S, inputs: seq<B>, write: (S, B) -> (S, seq<Unit>), end: S -> seq<Unit>)
    ensures RunStrip(Strip(inner, true), inputs, write, end) == (RunInner(inner, inputs, write, end), 0)
    decreases |inputs|
  {
    if |inputs| > 0 {
      StripIsTransparentAfterPass(write(inner, inputs[0]).0, inputs[1..], write, end);
    }
  }

  /** A fresh `StripBOM` returns the inner decoder's whole text with one leading U+FEFF removed
      when there is one, and calls back exactly once in that case and never otherwise, however
      the input is split and however many empty results come first. */
  lemma {:induction false} StripRemovesOneBom<S, B>(
    inner: S, inputs: seq<B>, write: (S, B) -> (S, seq<Unit>), end: S -> seq<Unit>)
    ensures var text := RunInner(inner, inputs, write, end);
            var r := RunStrip(NewStrip(inner), inputs, write, end);
            var stripped := |inputs| > 0 && |text| > 0 && text[0] == BOM_CHAR && RunsNonEmptyFirst(inner, inputs, write);
            r.0 == (if stripped then text[1..] else text) && r.1 == (if stripped then 1 else 0)
    decreases |inputs|
  {
    if |inputs| > 0 {
      var w := write(inner, inputs[0]);
      if |w.1| == 0 {
        StripRemovesOneBom(w.0, inputs[1..], write, end);
      } else {
        StripIsTransparentAfterPass(w.0, inputs[1..], write, end);
      }
    }
  }

  /** Whether some `write` (rather than `end`) produces the first unit of the inner text. */
  function RunsNonEmptyFirst<S, B>(s: S, inputs: seq<B>, write: (S, B) -> (S, seq<Unit>)): bool
    decreases |inputs|
  {
    if |inputs| == 0 then false
    else
      var w := write(s, inputs[0]);
      |w.1| > 0 || RunsNonEmptyFirst(w.0, inputs[1..], write)
  }
}
