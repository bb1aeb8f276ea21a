/**
  The per-context identifier generator: a 12-symbol random prefix, a random
  increment and a running counter rendered as 10 base-62 digits.

  The random sources (a cryptographic byte source for the prefix, a uniform
  integer source for the increment and the starting counter) are not modelled;
  their outputs arrive as a `Draw` whose ranges are those the source requests.
 */
module NuidWriter {
  import opened Wrappers
  import opened Numerics
  import opened Base62

  const PrefixLength: nat := 12
  const SequentialLength: nat := 10
  const NuidLength: nat := PrefixLength + SequentialLength
  /** 62^10, the number of distinct 10-digit suffixes. */
  const MaxSequential: nat := 839299365868340224
  const MinIncrement: nat := 33
  const MaxIncrement: nat := 333

  lemma MaxSequentialIsPow()
    ensures MaxSequential == Pow(Base, SequentialLength)
  {
  }

  /** The generator state of one execution context. */
  datatype Writer = Writer(prefix: string, increment: nat, sequential: nat)

  /** The ranges every generator state stays in. */
  predicate Valid(w: Writer) {
    && |w.prefix| == PrefixLength
    && AllInAlphabet(w.prefix)
    && MinIncrement <= w.increment <= MaxIncrement
    && w.sequential <= MaxSequential
  }

  /**
    The values the random sources hand to one refresh: the prefix bytes, the
    increment from `Next(MinIncrement, MaxIncrement + 1)` and the starting
    counter from `NextInt64(0, MaxSequential + 1)`; both upper bounds are exclusive.
   */
  datatype Draw = Draw(prefixBytes: seq<byte>, increment: int, sequential: int)

  predicate ValidDraw(d: Draw) {
    && |d.prefixBytes| == PrefixLength
    && MinIncrement <= d.increment < MaxIncrement + 1
    && 0 <= d.sequential < MaxSequential + 1
  }

  /** Maps each random byte to the symbol whose value is the byte modulo 62. */
  function GetPrefix(bytes: seq<byte>): (prefix: string)
    ensures |prefix| == |bytes|
    ensures AllInAlphabet(prefix)
    ensures forall i :: 0 <= i < |bytes| ==> DigitValue(prefix[i]) == bytes[i] % Base
  {
    DigitsTable();
    seq(|bytes|, i requires 0 <= i < |bytes| => Digits[bytes[i] % Base])
  }

  /** Replaces prefix, increment and counter with freshly drawn values. */
  function Refresh(d: Draw): (w: Writer)
    requires ValidDraw(d)
    ensures Valid(w)
    ensures forall i :: 0 <= i < PrefixLength ==> DigitValue(w.prefix[i]) == d.prefixBytes[i] % Base
    ensures w.increment == d.increment && w.sequential == d.sequential
  {
    Writer(GetPrefix(d.prefixBytes), d.increment, d.sequential)
  }

  /** The 22-symbol identifier for a prefix and a counter. */
  function Render(prefix: string, sequential: nat): (nuid: string)
    requires |prefix| == PrefixLength
    ensures |nuid| == NuidLength
    ensures nuid[..PrefixLength] == prefix
    ensures forall k :: 0 <= k < SequentialLength ==> nuid[PrefixLength + k] == DigitAt(sequential, k)
    ensures AllInAlphabet(prefix) ==> AllInAlphabet(nuid)
  {
    prefix + Encode(sequential, SequentialLength)
  }

  /** The suffix of a rendering decodes to the counter's low 10 digits: the counter itself below 62^10. */
  lemma RenderRoundTrip(prefix: string, sequential: nat)
    requires |prefix| == PrefixLength
    ensures AllInAlphabet(Render(prefix, sequential)[PrefixLength..])
    ensures Decode(Render(prefix, sequential)[PrefixLength..]) == sequential % MaxSequential
    ensures sequential < MaxSequential ==> Decode(Render(prefix, sequential)[PrefixLength..]) == sequential
  {
    var suffix := Render(prefix, sequential)[PrefixLength..];
    assert suffix == Encode(sequential, SequentialLength);
    MaxSequentialIsPow();
    DecodeEncode(sequential, SequentialLength);
    if sequential < MaxSequential {
      DivModUnique(sequential, MaxSequential, 0, sequential);
    }
  }

  /** Distinct counters below 62^10 render to distinct identifiers under one prefix. */
  lemma RenderInjective(prefix: string, a: nat, b: nat)
    requires |prefix| == PrefixLength
    requires a < MaxSequential && b < MaxSequential && a != b
    ensures Render(prefix, a) != Render(prefix, b)
  {
    RenderRoundTrip(prefix, a);
    RenderRoundTrip(prefix, b);
  }

  /** A buffer after a write attempt, with whether the attempt succeeded. */
  datatype Written = Written(ok: bool, buffer: seq<char>)

  /**
    Writes prefix and rendered counter into the first 22 slots of the buffer,
    or reports failure and writes nothing.
   */
  function WriteBuffer(buffer: seq<char>, prefix: string, sequential: nat): (r: Written)
    ensures r.ok <==> NuidLength <= |buffer| && |prefix| == PrefixLength
    ensures !r.ok ==> r.buffer == buffer
    ensures r.ok ==> |r.buffer| == |buffer|
    ensures r.ok ==> r.buffer[..NuidLength] == Render(prefix, sequential)
    ensures r.ok ==> r.buffer[NuidLength..] == buffer[NuidLength..]
  {
    if |buffer| < NuidLength || |prefix| != PrefixLength then
      Written(false, buffer)
    else
      var nuid := Render(prefix, sequential);
      assert (nuid + buffer[NuidLength..])[..NuidLength] == nuid;
      Written(true, nuid + buffer[NuidLength..])
  }

  /**
    The digit loop of the static writer: copies the prefix, then writes one
    digit per slot, least significant first, dividing the counter by 62 each time.
   */
  method TryWriteNuidCore(buffer: seq<char>, prefix: string, sequential: nat) returns (ok: bool, out: seq<char>)
    ensures ok <==> NuidLength <= |buffer| && |prefix| == PrefixLength
    ensures !ok ==> out == buffer
    ensures ok ==> |out| == |buffer| && out[..PrefixLength] == prefix && out[NuidLength..] == buffer[NuidLength..]
    ensures ok ==> forall k :: 0 <= k < SequentialLength ==> out[PrefixLength + k] == DigitAt(sequential, k)
    ensures Written(ok, out) == WriteBuffer(buffer, prefix, sequential)
  {
    if |buffer| < NuidLength || |prefix| != PrefixLength {
      return false, buffer;
    }
    DigitsTable();
    out := prefix + buffer[PrefixLength..];
    var s := sequential;
    var i := PrefixLength;
    while i < NuidLength
      invariant PrefixLength <= i <= NuidLength
      invariant |out| == |buffer|
      invariant out[..PrefixLength] == prefix
      invariant out[i..] == buffer[i..]
      invariant s == sequential / Pow(Base, i - PrefixLength)
      invariant forall k :: 0 <= k < i - PrefixLength ==> out[PrefixLength + k] == DigitAt(sequential, k)
    {
      out := out[i := Digits[s % Base]];
      DigitAtPow(sequential, i - PrefixLength);
      DivModNested(sequential, Pow(Base, i - PrefixLength), Base);
      s := s / Base;
      i := i + 1;
    }
    ok := true;
    assert out == WriteBuffer(buffer, prefix, sequential).buffer;
  }

  /** The result of one generation call: the buffer and the context's next state. */
  datatype Outcome = Outcome(ok: bool, buffer: seq<char>, writer: Writer)

  /**
    The instance overload `TryWriteNuidCore(Span<char>)`: one generation call
    of a context. Advance the counter by the increment
    (unsigned 64-bit addition); render with the current prefix if the counter
    is still below 62^10, otherwise refresh and render the fresh counter as
    drawn. The state advances even when the buffer is too short.
   */
  function WriteNext(w: Writer, buffer: seq<char>, d: Draw): (r: Outcome)
    requires Valid(w) && ValidDraw(d)
    ensures Valid(r.writer)
    ensures r.ok <==> NuidLength <= |buffer|
    ensures !r.ok ==> r.buffer == buffer
    ensures r.ok ==> |r.buffer| == |buffer| && r.buffer[NuidLength..] == buffer[NuidLength..]
    ensures r.ok ==> r.buffer[..NuidLength] == Render(r.writer.prefix, r.writer.sequential)
    ensures w.sequential + w.increment < MaxSequential ==>
      r.writer.prefix == w.prefix && r.writer.increment == w.increment
      && r.writer.sequential == w.sequential + w.increment
    ensures MaxSequential <= w.sequential + w.increment ==>
      r.writer.prefix == GetPrefix(d.prefixBytes) && r.writer.increment == d.increment
      && r.writer.sequential == d.sequential
  {
    var sequential := AddUInt64(w.sequential, w.increment);
    if sequential < MaxSequential then
      var next := w.(sequential := sequential);
      var written := WriteBuffer(buffer, next.prefix, sequential);
      Outcome(written.ok, written.buffer, next)
    else
      var next := Refresh(d);
      var written := WriteBuffer(buffer, next.prefix, next.sequential);
      Outcome(written.ok, written.buffer, next)
  }

  /** A generated identifier and the context's next state. */
  datatype Generated = Generated(nuid: string, writer: Writer)

  datatype NuidError = InternalError

  /**
    The 22-slot stack buffer `NewNuid` allocates. The source does not
    initialise it; any content will do, since every slot is overwritten
    (`AnyBufferGivesNewNuid`), and zero characters stand for it here.
   */
  const StackBuffer: seq<char> := "\0\0\0\0\0\0\0\0\0\0\0\0\0\0\0\0\0\0\0\0\0\0"

  /** Generates one identifier through a 22-slot buffer; the failure branch is never taken. */
  function NewNuid(w: Writer, d: Draw): (r: Result<Generated, NuidError>)
    requires Valid(w) && ValidDraw(d)
    ensures r.Success?
    ensures Valid(r.value.writer)
    ensures r.value.nuid == Render(r.value.writer.prefix, r.value.writer.sequential)
  {
    var out := WriteNext(w, StackBuffer, d);
    if out.ok then
      assert out.buffer == out.buffer[..NuidLength];
      Success(Generated(out.buffer, out.writer))
    else
      Failure(InternalError)
  }

  /** Through any 22-slot buffer, whatever its content, the call writes exactly the identifier and state `NewNuid` returns. */
  lemma AnyBufferGivesNewNuid(w: Writer, d: Draw, buffer: seq<char>)
    requires Valid(w) && ValidDraw(d) && |buffer| == NuidLength
    ensures var out := WriteNext(w, buffer, d);
      out.ok && out.buffer == NewNuid(w, d).value.nuid && out.writer == NewNuid(w, d).value.writer
  {
    var out := WriteNext(w, buffer, d);
    assert out.buffer == out.buffer[..NuidLength];
    var ref := WriteNext(w, StackBuffer, d);
    assert ref.buffer == ref.buffer[..NuidLength];
  }

  /**
    A generated identifier has 22 alphabet symbols, starts with the state's
    prefix, and its suffix decodes to the state's counter modulo 62^10.
   */
  lemma NewNuidRoundTrip(w: Writer, d: Draw)
    requires Valid(w) && ValidDraw(d)
    ensures var g := NewNuid(w, d).value;
      && |g.nuid| == NuidLength && AllInAlphabet(g.nuid)
      && g.nuid[..PrefixLength] == g.writer.prefix
      && Decode(g.nuid[PrefixLength..]) == g.writer.sequential % MaxSequential
  {
    var g := NewNuid(w, d).value;
    RenderRoundTrip(g.writer.prefix, g.writer.sequential);
  }

  predicate AllValidDraws(ds: seq<Draw>) {
    forall i :: 0 <= i < |ds| ==> ValidDraw(ds[i])
  }

  /** The identifiers of a run of calls and the state after the last one. */
  datatype Run = Run(ids: seq<string>, last: Writer)

  /** A step function that maps every valid state and draw to a generated identifier and a valid state. */
  ghost predicate Preserves(step: (Writer, Draw) --> Generated) {
    forall w: Writer, d: Draw :: Valid(w) && ValidDraw(d) ==> step.requires(w, d) && Valid(step(w, d).writer)
  }

  /** Consecutive calls of `step` from `w`, the i-th call receiving the draw `ds[i]`. */
  function RunOf(step: (Writer, Draw) --> Generated, w: Writer, ds: seq<Draw>): (r: Run)
    requires Preserves(step) && Valid(w) && AllValidDraws(ds)
    ensures |r.ids| == |ds|
    ensures Valid(r.last)
    decreases |ds|
  {
    if |ds| == 0 then Run([], w)
    else
      var g := step(w, ds[0]);
      var rest := RunOf(step, g.writer, ds[1..]);
      Run([g.nuid] + rest.ids, rest.last)
  }

  /** One call of the generator, as a step function. */
  function Call(w: Writer, d: Draw): Generated
    requires Valid(w) && ValidDraw(d)
  {
    NewNuid(w, d).value
  }

  /** Consecutive calls of one context, the i-th call receiving the draw `ds[i]` should it refresh. */
  function GenerateRun(w: Writer, ds: seq<Draw>): (r: Run)
    requires Valid(w) && AllValidDraws(ds)
    ensures |r.ids| == |ds|
    ensures Valid(r.last)
  {
    RunOf(Call, w, ds)
  }

  /** A call whose advanced counter stays below 62^10 renders it under the unchanged prefix. */
  lemma StepWithoutRefresh(w: Writer, d: Draw)
    requires Valid(w) && ValidDraw(d)
    requires w.sequential + w.increment < MaxSequential
    ensures NewNuid(w, d).value
      == Generated(Render(w.prefix, w.sequential + w.increment), w.(sequential := w.sequential + w.increment))
  {
    var out := WriteNext(w, StackBuffer, d);
    assert out.buffer == out.buffer[..NuidLength];
  }

  /** The counter `s` advanced `k` times by `inc`. */
  function Advance(s: nat, inc: nat, k: nat): nat
    decreases k
  {
    if k == 0 then s else Advance(s + inc, inc, k - 1)
  }

  lemma {:induction false} AdvanceGrows(s: nat, inc: nat, k: nat)
    requires 0 < k
    ensures s + inc <= Advance(s, inc, k)
    decreases k
  {
    if 1 < k {
      AdvanceGrows(s + inc, inc, k - 1);
    }
  }

  lemma {:induction false} AdvanceMonotonic(s: nat, inc: nat, i: nat, j: nat)
    requires 0 < inc && i < j
    ensures Advance(s, inc, i) < Advance(s, inc, j)
    decreases i
  {
    if i == 0 {
      AdvanceGrows(s, inc, j);
    } else {
      AdvanceMonotonic(s + inc, inc, i - 1, j - 1);
    }
  }

  /** A step function that, below 62^10, renders the advanced counter and changes nothing else. */
  ghost predicate CountsWithoutRefresh(step: (Writer, Draw) --> Generated) {
    forall w: Writer, d: Draw :: Valid(w) && ValidDraw(d) && w.sequential + w.increment < MaxSequential ==>
      step.requires(w, d) && step(w, d) == Generated(Render(w.prefix, w.sequential + w.increment), w.(sequential := w.sequential + w.increment))
  }

  /** The generator's call is such a step function. */
  lemma CallCounts()
    ensures Preserves(Call) && CountsWithoutRefresh(Call)
  {
    forall w: Writer, d: Draw | Valid(w) && ValidDraw(d) && w.sequential + w.increment < MaxSequential
      ensures Call(w, d) == Generated(Render(w.prefix, w.sequential + w.increment), w.(sequential := w.sequential + w.increment))
    {
      StepWithoutRefresh(w, d);
    }
  }

  /**
    A run of such a step function that stays below 62^10: the i-th identifier
    renders the counter advanced i + 1 times under the unchanged prefix, and
    the state ends with only its counter advanced.
   */
  lemma {:induction false} RunOfWithoutRefresh(step: (Writer, Draw) --> Generated, w: Writer, ds: seq<Draw>)
    requires Preserves(step) && CountsWithoutRefresh(step)
    requires Valid(w) && AllValidDraws(ds)
    requires Advance(w.sequential, w.increment, |ds|) < MaxSequential
    ensures RunOf(step, w, ds).last == w.(sequential := Advance(w.sequential, w.increment, |ds|))
    ensures var ids := RunOf(step, w, ds).ids;
      forall i :: 0 <= i < |ids| ==> ids[i] == Render(w.prefix, Advance(w.sequential, w.increment, i + 1))
    decreases |ds|
  {
    if |ds| > 0 {
      var inc := w.increment;
      var next := w.(sequential := w.sequential + inc);
      AdvanceGrows(w.sequential, inc, |ds|);
      assert step(w, ds[0]) == Generated(Render(w.prefix, next.sequential), next);
      assert AllValidDraws(ds[1..]);
      assert Advance(w.sequential, inc, |ds|) == Advance(next.sequential, inc, |ds| - 1);
      RunOfWithoutRefresh(step, next, ds[1..]);
      var rest := RunOf(step, next, ds[1..]).ids;
      var ids := RunOf(step, w, ds).ids;
      assert Advance(w.sequential, inc, 1) == next.sequential;
      forall i | 1 <= i < |ids|
        ensures ids[i] == Render(w.prefix, Advance(w.sequential, inc, i + 1))
      {
        assert ids[i] == rest[i - 1];
        assert Advance(w.sequential, inc, i + 1) == Advance(next.sequential, inc, i);
      }
    }
  }

  /**
    While the counter stays below 62^10 no refresh happens: the i-th identifier
    of a run renders the counter advanced i + 1 times, under the unchanged prefix.
   */
  lemma RunWithoutRefresh(w: Writer, ds: seq<Draw>)
    requires Valid(w) && AllValidDraws(ds)
    requires Advance(w.sequential, w.increment, |ds|) < MaxSequential
    ensures GenerateRun(w, ds).last == w.(sequential := Advance(w.sequential, w.increment, |ds|))
    ensures var ids := GenerateRun(w, ds).ids;
      forall i :: 0 <= i < |ids| ==> ids[i] == Render(w.prefix, Advance(w.sequential, w.increment, i + 1))
  {
    CallCounts();
    RunOfWithoutRefresh(Call, w, ds);
  }

  /** Within a run that does not refresh, no identifier repeats. */
  lemma NoRepeatWithoutRefresh(w: Writer, ds: seq<Draw>)
    requires Valid(w) && AllValidDraws(ds)
    requires Advance(w.sequential, w.increment, |ds|) < MaxSequential
    ensures var ids := GenerateRun(w, ds).ids;
      forall i, j :: 0 <= i < j < |ids| ==> ids[i] != ids[j]
  {
    RunWithoutRefresh(w, ds);
    var ids := GenerateRun(w, ds).ids;
    forall i, j | 0 <= i < j < |ids|
      ensures ids[i] != ids[j]
    {
      RunCountersDistinct(w, |ds|, i, j);
    }
  }

  /** The renderings of two different calls of a run that does not refresh differ. */
  lemma RunCountersDistinct(w: Writer, n: nat, i: nat, j: nat)
    requires Valid(w) && i < j < n
    requires Advance(w.sequential, w.increment, n) < MaxSequential
    ensures Render(w.prefix, Advance(w.sequential, w.increment, i + 1))
      != Render(w.prefix, Advance(w.sequential, w.increment, j + 1))
  {
    var a := Advance(w.sequential, w.increment, i + 1);
    var b := Advance(w.sequential, w.increment, j + 1);
    AdvanceMonotonic(w.sequential, w.increment, i + 1, j + 1);
    if j + 1 < n {
      AdvanceMonotonic(w.sequential, w.increment, j + 1, n);
    }
    RenderInjective(w.prefix, a, b);
  }

  /**
    As written: a refresh may draw the counter 62^10 itself. It is rendered as
    ten '0' symbols, the suffix of counter 0, and the suffix no longer decodes
    to the counter it was rendered from.
   */
  lemma AsWrittenRefreshRendersZeroSuffix(w: Writer, d: Draw)
    requires Valid(w) && ValidDraw(d)
    requires MaxSequential <= w.sequential + w.increment
    requires d.sequential == MaxSequential
    ensures var g := NewNuid(w, d).value;
      && g.writer.sequential == MaxSequential
      && g.nuid[PrefixLength..] == Encode(0, SequentialLength)
      && Decode(g.nuid[PrefixLength..]) != g.writer.sequential
  {
    var g := NewNuid(w, d).value;
    var suffix := g.nuid[PrefixLength..];
    RenderRoundTrip(g.writer.prefix, g.writer.sequential);
    assert Decode(suffix) == 0 by {
      DivModUnique(MaxSequential, MaxSequential, 1, 0);
    }
    EncodeDecode(suffix);
  }

  /** The starting-counter range the 10-digit rendering is meant for: [0, 62^10). */
  predicate IntendedDraw(d: Draw) {
    ValidDraw(d) && d.sequential < MaxSequential
  }

  /** The state invariant under intended draws: every counter is renderable. */
  predicate IntendedValid(w: Writer) {
    Valid(w) && w.sequential < MaxSequential
  }

  /**
    Corrected: with starting counters drawn from [0, 62^10), every call keeps
    the counter below 62^10 and its suffix decodes to exactly that counter.
   */
  lemma IntendedRefreshRoundTrip(w: Writer, d: Draw)
    requires IntendedValid(w) && IntendedDraw(d)
    ensures var g := NewNuid(w, d).value;
      && IntendedValid(g.writer)
      && Decode(g.nuid[PrefixLength..]) == g.writer.sequential
      && Encode(g.writer.sequential, SequentialLength) == g.nuid[PrefixLength..]
  {
    var g := NewNuid(w, d).value;
    RenderRoundTrip(g.writer.prefix, g.writer.sequential);
    EncodeDecode(g.nuid[PrefixLength..]);
  }
}
