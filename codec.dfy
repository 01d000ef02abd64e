/** compress and decompress: a Deflater or Inflater is driven step by step
    into a reused 4096-byte buffer, and each step's bytes are appended to a
    growing output; the compressed side travels as Base64 text.

    The zlib engine itself is not part of this model. A Deflater is the
    sequence of chunks its successive deflate calls write; an Inflater is
    the sequence of steps its successive inflate calls take. Both are
    supplied, per input, by a ZlibEngine. */
module Codec {
  import opened UdfTypes
  import Base64

  /** Size of the buffer both loops reuse for every step. */
  const BufferSize: nat := 4096

  function Concat(chunks: seq<Bytes>): Bytes {
    if chunks == [] then [] else chunks[0] + Concat(chunks[1..])
  }

  predicate ChunksFit(chunks: seq<Bytes>) {
    forall i :: 0 <= i < |chunks| ==> |chunks[i]| <= BufferSize
  }

  // ---------------------------------------------------------------------
  // The inflater's steps and the decompress loop's semantics
  // ---------------------------------------------------------------------

  /** One call of Inflater.inflate(buffer): it writes chunk at the start of
      the buffer, returns its length and leaves finished() and needsInput()
      as given; or it throws DataFormatException. */
  datatype InflateStep =
    | Inflated(chunk: Bytes, finished: bool, needsInput: bool)
    | Malformed

  /** The step wrote nothing and the inflater has no input left. */
  predicate Starved(st: InflateStep) {
    st.Inflated? && |st.chunk| == 0 && st.needsInput
  }

  /** The step wrote nothing, yet the stream is neither finished nor out of
      input: the inflater waits for a preset dictionary (needsDictionary()),
      and every later call takes this same step again. */
  predicate Stalled(st: InflateStep) {
    st.Inflated? && |st.chunk| == 0 && !st.finished && !st.needsInput
  }

  /** The inflater makes no further progress after this step: it threw,
      finished the stream, or wrote nothing into the buffer. */
  predicate Halts(st: InflateStep) {
    st.Malformed? || st.finished || |st.chunk| == 0
  }

  /** The source's loop does not call inflate again after this step. */
  predicate EndsLoop(st: InflateStep) {
    st.Malformed? || st.finished || Starved(st)
  }

  /** Some step halts the inflater. */
  predicate Stops(steps: seq<InflateStep>) {
    |steps| > 0 && (Halts(steps[0]) || Stops(steps[1..]))
  }

  predicate StepsFit(steps: seq<InflateStep>) {
    forall i :: 0 <= i < |steps| ==> steps[i].Inflated? ==> |steps[i].chunk| <= BufferSize
  }

  /** The index of the step that halts the inflater. */
  function FirstStop(steps: seq<InflateStep>): (k: nat)
    requires Stops(steps)
    ensures k < |steps| && Halts(steps[k])
    ensures forall j :: 0 <= j < k ==> !Halts(steps[j])
  {
    if Halts(steps[0]) then 0 else 1 + FirstStop(steps[1..])
  }

  /** The inflater halts other than by stalling: the source's loop ends. */
  predicate Unstalled(steps: seq<InflateStep>) {
    Stops(steps) && !Stalled(steps[FirstStop(steps)])
  }

  /** Everything the given steps write, in order. */
  function Output(steps: seq<InflateStep>): Bytes {
    if steps == [] then []
    else (if steps[0].Inflated? then steps[0].chunk else []) + Output(steps[1..])
  }

  /** The steps make the inflater finish, having written out in all. */
  ghost predicate FinishesWith(steps: seq<InflateStep>, out: Bytes) {
    Stops(steps)
    && var k := FirstStop(steps);
    steps[k].Inflated? && steps[k].finished && Output(steps[..k + 1]) == out
  }

  function Prepend(chunk: Bytes, r: Result<Bytes>): Result<Bytes> {
    match r
    case Ok(rest) => Ok(chunk + rest)
    case Err(e) => Err(e)
  }

  /** A step that neither throws, finishes, nor starves leaves an unstalled
      run unstalled: it is not the halting step. */
  lemma UnstalledTail(steps: seq<InflateStep>)
    requires Unstalled(steps) && !EndsLoop(steps[0])
    ensures !Halts(steps[0]) && Unstalled(steps[1..])
  {
  }

  /** The outcome of the decompress loop as the source writes it: after each
      inflate call, zero bytes with needsInput() is "Input is truncated",
      whether or not that call finished the stream. */
  function DrainAsWritten(steps: seq<InflateStep>): Result<Bytes>
    requires Unstalled(steps)
  {
    match steps[0]
    case Malformed => Err(MalformedDeflate)
    case Inflated(chunk, finished, needsInput) =>
      if |chunk| == 0 && needsInput then Err(InputTruncated)
      else if finished then Ok(chunk)
      else
        UnstalledTail(steps);
        Prepend(chunk, DrainAsWritten(steps[1..]))
  }

  /** The outcome of the loop with the check it evidently intends: a call
      that writes nothing before the stream is finished is an error, input
      truncation when needsInput() holds and a missing preset dictionary
      otherwise. */
  function Drain(steps: seq<InflateStep>): Result<Bytes>
    requires Stops(steps)
  {
    match steps[0]
    case Malformed => Err(MalformedDeflate)
    case Inflated(chunk, finished, needsInput) =>
      if finished then Ok(chunk)
      else if |chunk| == 0 then (if needsInput then Err(InputTruncated) else Err(DictionaryRequired))
      else Prepend(chunk, Drain(steps[1..]))
  }

  lemma PrependNothing(r: Result<Bytes>)
    ensures Prepend([], r) == r
  {
    if r.Ok? {
      assert [] + r.value == r.value;
    }
  }

  lemma PrependTwice(a: Bytes, b: Bytes, r: Result<Bytes>)
    ensures Prepend(a, Prepend(b, r)) == Prepend(a + b, r)
  {
    if r.Ok? {
      assert a + (b + r.value) == (a + b) + r.value;
    }
  }

  lemma OutputOne(st: InflateStep)
    requires st.Inflated?
    ensures Output([st]) == st.chunk
  {
    assert [st][1..] == [];
  }

  lemma OutputPrefix(steps: seq<InflateStep>, k: nat)
    requires 0 < k <= |steps| && steps[0].Inflated?
    ensures Output(steps[..k]) == steps[0].chunk + Output(steps[1..][..k - 1])
  {
    assert steps[..k][1..] == steps[1..][..k - 1];
  }

  lemma {:induction false} OutputAppend(a: seq<InflateStep>, b: seq<InflateStep>)
    ensures Output(a + b) == Output(a) + Output(b)
    decreases |a|
  {
    if a == [] {
      assert a + b == b;
    } else {
      assert (a + b)[1..] == a[1..] + b;
      OutputAppend(a[1..], b);
    }
  }

  /** The source's loop, without recursion: it stops at the halting step;
      that step decides between the two errors, and otherwise the result
      is everything the steps up to it wrote. */
  lemma {:induction false} DrainAsWrittenAt(steps: seq<InflateStep>)
    requires Unstalled(steps)
    ensures var k := FirstStop(steps);
      DrainAsWritten(steps) ==
        if steps[k].Malformed? then Err(MalformedDeflate)
        else if Starved(steps[k]) then Err(InputTruncated)
        else Ok(Output(steps[..k + 1]))
    decreases |steps|
  {
    var k := FirstStop(steps);
    if k == 0 {
      assert steps[..1] == [steps[0]];
      if steps[0].Inflated? {
        OutputOne(steps[0]);
      }
    } else {
      UnstalledTail(steps);
      DrainAsWrittenAt(steps[1..]);
      OutputPrefix(steps, k + 1);
    }
  }

  /** The same for the corrected loop: finishing wins over writing nothing,
      and a halt before the end is truncation or a missing dictionary. */
  lemma {:induction false} DrainAt(steps: seq<InflateStep>)
    requires Stops(steps)
    ensures var k := FirstStop(steps);
      Drain(steps) ==
        if steps[k].Malformed? then Err(MalformedDeflate)
        else if steps[k].finished then Ok(Output(steps[..k + 1]))
        else if steps[k].needsInput then Err(InputTruncated)
        else Err(DictionaryRequired)
    decreases |steps|
  {
    var k := FirstStop(steps);
    if k == 0 {
      assert steps[..1] == [steps[0]];
      if steps[0].Inflated? {
        OutputOne(steps[0]);
      }
    } else {
      DrainAt(steps[1..]);
      OutputPrefix(steps, k + 1);
    }
  }

  /** The source throws "Input is truncated" exactly when some inflate call
      writes nothing and leaves needsInput(), every call before it having
      neither thrown, nor finished, nor starved. */
  lemma AsWrittenTruncatedIff(steps: seq<InflateStep>)
    requires Unstalled(steps)
    ensures DrainAsWritten(steps) == Err(InputTruncated) <==>
      exists k :: 0 <= k < |steps| && Starved(steps[k]) && (forall j :: 0 <= j < k ==> !EndsLoop(steps[j]))
  {
    DrainAsWrittenAt(steps);
    var f := FirstStop(steps);
    if k :| 0 <= k < |steps| && Starved(steps[k]) && (forall j :: 0 <= j < k ==> !EndsLoop(steps[j])) {
      assert !(f < k) && !(k < f);
    }
  }

  /** In the corrected loop, a starved step is truncation only when it does
      not also finish the stream. */
  lemma TruncatedIff(steps: seq<InflateStep>)
    requires Stops(steps)
    ensures Drain(steps) == Err(InputTruncated) <==>
      exists k :: 0 <= k < |steps| && Starved(steps[k]) && !steps[k].finished
        && (forall j :: 0 <= j < k ==> !Halts(steps[j]))
  {
    DrainAt(steps);
    var f := FirstStop(steps);
    if k :| 0 <= k < |steps| && Starved(steps[k]) && !steps[k].finished && (forall j :: 0 <= j < k ==> !Halts(steps[j])) {
      assert !(f < k) && !(k < f);
    }
  }

  /** The corrected loop reports a missing dictionary exactly when the
      inflater stalls. */
  lemma DictionaryIff(steps: seq<InflateStep>)
    requires Stops(steps)
    ensures Drain(steps) == Err(DictionaryRequired) <==> Stalled(steps[FirstStop(steps)])
  {
    DrainAt(steps);
  }

  /** Whenever the inflater finishes, the corrected loop returns exactly
      what it wrote. */
  lemma DrainFinishes(steps: seq<InflateStep>, out: Bytes)
    requires FinishesWith(steps, out)
    ensures Drain(steps) == Ok(out)
  {
    DrainAt(steps);
  }

  /** The source's loop returns what a finishing inflater wrote if and only
      if the call that finished the stream wrote something or left input
      unread; otherwise it reports truncation of a complete stream. */
  lemma AsWrittenFinishes(steps: seq<InflateStep>, out: Bytes)
    requires FinishesWith(steps, out)
    ensures Unstalled(steps)
    ensures DrainAsWritten(steps) == Ok(out) <==> !Starved(steps[FirstStop(steps)])
    ensures Starved(steps[FirstStop(steps)]) ==> DrainAsWritten(steps) == Err(InputTruncated)
  {
    DrainAsWrittenAt(steps);
  }

  /** The zlib stream of the empty string (78 9C 03 00 00 00 00 01) is
      inflated by a single call that writes nothing, finishes the stream and
      consumes all input: the source rejects it, the corrected loop gives the
      empty string back. */
  lemma EmptyStreamCounterexample()
    ensures var steps := [Inflated([], true, true)];
      Stops(steps) && FinishesWith(steps, [])
      && DrainAsWritten(steps) == Err(InputTruncated)
      && Drain(steps) == Ok([])
  {
    var steps := [Inflated([], true, true)];
    assert steps[..1] == steps;
    OutputOne(steps[0]);
  }

  // ---------------------------------------------------------------------
  // The source's loop call by call, and the stalled inflater
  // ---------------------------------------------------------------------

  /** The step the i-th inflate call takes: a stalled inflater takes the
      same step on every later call. */
  function CallStep(steps: seq<InflateStep>, i: nat): InflateStep
    requires Stops(steps)
  {
    var k := FirstStop(steps);
    if i <= k then steps[i] else steps[k]
  }

  /** Where the source's loop stands: still running with the bytes written
      so far, or returned. */
  datatype LoopState = Running(out: Bytes) | Returned(r: Result<Bytes>)

  /** The source's loop after n iterations of its body. */
  function AsWrittenLoop(steps: seq<InflateStep>, n: nat): LoopState
    requires Stops(steps)
  {
    if n == 0 then Running([])
    else
      match AsWrittenLoop(steps, n - 1)
      case Returned(r) => Returned(r)
      case Running(out) =>
        match CallStep(steps, n - 1)
        case Malformed => Returned(Err(MalformedDeflate))
        case Inflated(chunk, finished, needsInput) =>
          if |chunk| == 0 && needsInput then Returned(Err(InputTruncated))
          else if finished then Returned(Ok(out + chunk))
          else Running(out + chunk)
  }

  /** Up to the halting step the loop runs on, having written everything
      the earlier steps wrote. */
  lemma {:induction false} AsWrittenLoopRunning(steps: seq<InflateStep>, n: nat)
    requires Stops(steps) && n <= FirstStop(steps)
    ensures AsWrittenLoop(steps, n) == Running(Output(steps[..n]))
  {
    if n > 0 {
      AsWrittenLoopRunning(steps, n - 1);
      var st := steps[n - 1];
      assert steps[..n] == steps[..n - 1] + [st];
      OutputAppend(steps[..n - 1], [st]);
      OutputOne(st);
    }
  }

  /** An unstalled run leaves the loop in the iteration of its halting
      step, with the outcome DrainAsWritten gives. */
  lemma AsWrittenLoopReturns(steps: seq<InflateStep>)
    requires Unstalled(steps)
    ensures AsWrittenLoop(steps, FirstStop(steps) + 1) == Returned(DrainAsWritten(steps))
  {
    var k := FirstStop(steps);
    AsWrittenLoopRunning(steps, k);
    DrainAsWrittenAt(steps);
    if steps[k].Inflated? {
      assert steps[..k + 1] == steps[..k] + [steps[k]];
      OutputAppend(steps[..k], [steps[k]]);
      OutputOne(steps[k]);
    }
  }

  /** A stalled run never leaves the source's loop: after any number of
      iterations it is still running. */
  lemma {:induction false} StalledRunHangs(steps: seq<InflateStep>, n: nat)
    requires Stops(steps) && Stalled(steps[FirstStop(steps)])
    ensures AsWrittenLoop(steps, n).Running?
  {
    if n > 0 {
      StalledRunHangs(steps, n - 1);
      var st := CallStep(steps, n - 1);
      assert !Halts(st) || Stalled(st);
    }
  }

  /** A zlib stream that asks for a preset dictionary and has data after
      the dictionary id (78 BB 00 00 00 01 03 00 00 00 00 01): every inflate
      call writes nothing and leaves both finished() and needsInput()
      false. The source's loop never returns; the corrected loop reports the
      missing dictionary. */
  lemma DictionaryStreamCounterexample()
    ensures var steps := [Inflated([], false, false)];
      && Stops(steps) && Stalled(steps[FirstStop(steps)])
      && (forall n: nat :: AsWrittenLoop(steps, n).Running?)
      && Drain(steps) == Err(DictionaryRequired)
  {
    var steps := [Inflated([], false, false)];
    forall n: nat
      ensures AsWrittenLoop(steps, n).Running?
    {
      StalledRunHangs(steps, n);
    }
  }

  // ---------------------------------------------------------------------
  // The engine
  // ---------------------------------------------------------------------

  /** java.util.zip's DEFLATE engine, which this model does not open:
      deflate gives the chunks a Deflater writes for an input after finish(),
      inflate the steps an Inflater takes over a compressed input up to the
      one that halts it, both against a BufferSize buffer. */
  datatype ZlibEngine = ZlibEngine(deflate: Bytes -> seq<Bytes>, inflate: Bytes -> seq<InflateStep>) {

    /** No deflate call writes more than the buffer holds. */
    ghost predicate DeflateFits() {
      forall b :: ChunksFit(deflate(b))
    }

    /** No inflate call writes more than the buffer holds. */
    ghost predicate InflateFits() {
      forall b :: StepsFit(inflate(b))
    }

    /** Inflating what the deflater wrote finishes with the original bytes. */
    ghost predicate Inverts() {
      forall b :: FinishesWith(inflate(Concat(deflate(b))), b)
    }
  }

  /** The inflater halts on the bytes the text decodes to (nothing is
      asked of null or of text that is not Base64). */
  predicate InflateStops(engine: ZlibEngine, input: Option<string>) {
    input.Some? && Base64.Decode(input.value).Some? ==> Stops(engine.inflate(Base64.Decode(input.value).value))
  }

  /** The same, and the inflater does not stall there. */
  predicate InflateUnstalled(engine: ZlibEngine, input: Option<string>) {
    input.Some? && Base64.Decode(input.value).Some? ==> Unstalled(engine.inflate(Base64.Decode(input.value).value))
  }

  // ---------------------------------------------------------------------
  // Deflater, Inflater and the two loops
  // ---------------------------------------------------------------------

  /** A Deflater after setInput and finish: its state is what its remaining
      deflate calls will write, one chunk per call. */
  class Deflater {
    var pending: seq<Bytes>

    ghost predicate Valid()
      reads this
    {
      ChunksFit(pending)
    }

    constructor (chunks: seq<Bytes>)
      requires ChunksFit(chunks)
      ensures Valid() && pending == chunks
    {
      pending := chunks;
    }

    /** Deflater.finished(): the whole compressed stream has been written. */
    predicate Finished()
      reads this
    {
      pending == []
    }

    /** Deflater.deflate(buffer): writes the next chunk at the start of the
        buffer and returns how many bytes it wrote. */
    method Deflate(buffer: array<byte>) returns (n: nat)
      requires Valid() && !Finished() && buffer.Length == BufferSize
      modifies this, buffer
      ensures Valid() && pending == old(pending)[1..]
      ensures n == |old(pending)[0]| <= buffer.Length
      ensures buffer[..n] == old(pending)[0]
      ensures buffer[n..] == old(buffer[..])[n..]
    {
      var chunk := pending[0];
      n := |chunk|;
      forall i | 0 <= i < n {
        buffer[i] := chunk[i];
      }
      pending := pending[1..];
    }
  }

  /** An Inflater after setInput: its state is the steps its remaining
      inflate calls take, and the finished() and needsInput() flags the last
      call left. */
  class Inflater {
    var steps: seq<InflateStep>
    var finished: bool
    var needsInput: bool

    ghost predicate Valid()
      reads this
    {
      StepsFit(steps)
    }

    constructor (steps: seq<InflateStep>)
      requires StepsFit(steps)
      ensures Valid() && this.steps == steps && !finished
    {
      this.steps := steps;
      finished, needsInput := false, false;
    }

    /** Inflater.inflate(buffer): the next step. */
    method Inflate(buffer: array<byte>) returns (r: Result<nat>)
      requires Valid() && steps != [] && buffer.Length == BufferSize
      modifies this, buffer
      ensures Valid() && steps == old(steps)[1..]
      ensures old(steps)[0].Malformed? ==>
        && r == Err(MalformedDeflate)
        && buffer[..] == old(buffer[..])
        && finished == old(finished) && needsInput == old(needsInput)
      ensures old(steps)[0].Inflated? ==>
        && r == Ok(|old(steps)[0].chunk|)
        && buffer[..r.value] == old(steps)[0].chunk
        && buffer[r.value..] == old(buffer[..])[r.value..]
        && finished == old(steps)[0].finished
        && needsInput == old(steps)[0].needsInput
    {
      var st := steps[0];
      steps := steps[1..];
      if st.Malformed? {
        return Err(MalformedDeflate);
      }
      var chunk := st.chunk;
      forall i | 0 <= i < |chunk| {
        buffer[i] := chunk[i];
      }
      finished, needsInput := st.finished, st.needsInput;
      r := Ok(|chunk|);
    }
  }

  /** What compress returns: null for null, otherwise the Base64 text of
      everything the Deflater writes. */
  function CompressSpec(engine: ZlibEngine, input: Option<Bytes>): Option<string> {
    match input
    case None => None
    case Some(bytes) => Some(Base64.Encode(Concat(engine.deflate(bytes))))
  }

  /** What decompress returns with the corrected truncation check. */
  function DecompressSpec(engine: ZlibEngine, input: Option<string>): Result<Option<Bytes>>
    requires InflateStops(engine, input)
  {
    match input
    case None => Ok(None)
    case Some(text) =>
      match Base64.Decode(text)
      case None => Err(IllegalBase64)
      case Some(bytes) =>
        var out :- Drain(engine.inflate(bytes));
        Ok(Some(out))
  }

  /** What decompress returns as the source writes it. */
  function DecompressAsWrittenSpec(engine: ZlibEngine, input: Option<string>): Result<Option<Bytes>>
    requires InflateUnstalled(engine, input)
  {
    match input
    case None => Ok(None)
    case Some(text) =>
      match Base64.Decode(text)
      case None => Err(IllegalBase64)
      case Some(bytes) =>
        var out :- DrainAsWritten(engine.inflate(bytes));
        Ok(Some(out))
  }

  /** compress: the input's UTF-8 bytes go through a Deflater into the
      buffer, each deflate call's bytes are appended to the output, and the
      output is Base64-encoded. */
  method Compress(engine: ZlibEngine, input: Option<Bytes>) returns (r: Option<string>)
    requires engine.DeflateFits()
    ensures input.None? ==> r.None?
    ensures r == CompressSpec(engine, input)
  {
    if input.None? {
      return None;
    }
    var inputBytes := input.value;
    var compressor := new Deflater(engine.deflate(inputBytes));
    var buffer := new byte[BufferSize];
    var out: Bytes := [];
    while !compressor.Finished()
      invariant compressor.Valid()
      invariant out + Concat(compressor.pending) == Concat(engine.deflate(inputBytes))
      decreases |compressor.pending|
    {
      ghost var chunks := compressor.pending;
      var bytes := compressor.Deflate(buffer);
      assert Concat(chunks) == chunks[0] + Concat(compressor.pending);
      assert (out + buffer[..bytes]) + Concat(compressor.pending) == out + Concat(chunks);
      out := out + buffer[..bytes];
    }
    assert out + Concat([]) == out;
    r := Some(Base64.Encode(out));
  }

  /** decompress with the check corrected: a call that writes nothing
      ends the loop with an error unless it finished the stream. */
  method Decompress(engine: ZlibEngine, input: Option<string>) returns (r: Result<Option<Bytes>>)
    requires engine.InflateFits() && InflateStops(engine, input)
    ensures input.None? ==> r == Ok(None)
    ensures r == DecompressSpec(engine, input)
  {
    if input.None? {
      return Ok(None);
    }
    var decoded := Base64.Decode(input.value);
    if decoded.None? {
      return Err(IllegalBase64);
    }
    var inputBytes := decoded.value;
    ghost var steps := engine.inflate(inputBytes);
    var decompressor := new Inflater(engine.inflate(inputBytes));
    var buffer := new byte[BufferSize];
    var out: Bytes := [];
    PrependNothing(Drain(steps));
    while !decompressor.finished
      invariant decompressor.Valid()
      invariant !decompressor.finished ==>
        Stops(decompressor.steps) && Drain(steps) == Prepend(out, Drain(decompressor.steps))
      invariant decompressor.finished ==> Drain(steps) == Ok(out)
      decreases |decompressor.steps|
    {
      var step := decompressor.Inflate(buffer);
      if step.Err? {
        return Err(step.error);
      }
      var bytes := step.value;
      if bytes == 0 && !decompressor.finished {
        if decompressor.needsInput {
          return Err(InputTruncated);
        }
        return Err(DictionaryRequired);
      }
      if !decompressor.finished {
        PrependTwice(out, buffer[..bytes], Drain(decompressor.steps));
      }
      out := out + buffer[..bytes];
    }
    r := Ok(Some(out));
  }

  /** decompress exactly as the source writes it. */
  method DecompressAsWritten(engine: ZlibEngine, input: Option<string>) returns (r: Result<Option<Bytes>>)
    requires engine.InflateFits() && InflateUnstalled(engine, input)
    ensures input.None? ==> r == Ok(None)
    ensures r == DecompressAsWrittenSpec(engine, input)
  {
    if input.None? {
      return Ok(None);
    }
    var decoded := Base64.Decode(input.value);
    if decoded.None? {
      return Err(IllegalBase64);
    }
    var inputBytes := decoded.value;
    ghost var steps := engine.inflate(inputBytes);
    var decompressor := new Inflater(engine.inflate(inputBytes));
    var buffer := new byte[BufferSize];
    var out: Bytes := [];
    PrependNothing(DrainAsWritten(steps));
    while !decompressor.finished
      invariant decompressor.Valid()
      invariant !decompressor.finished ==>
        Unstalled(decompressor.steps) && DrainAsWritten(steps) == Prepend(out, DrainAsWritten(decompressor.steps))
      invariant decompressor.finished ==> DrainAsWritten(steps) == Ok(out)
      decreases |decompressor.steps|
    {
      ghost var before := decompressor.steps;
      var step := decompressor.Inflate(buffer);
      if step.Err? {
        return Err(step.error);
      }
      var bytes := step.value;
      if bytes == 0 && decompressor.needsInput {
        return Err(InputTruncated);
      }
      if !decompressor.finished {
        UnstalledTail(before);
        PrependTwice(out, buffer[..bytes], DrainAsWritten(decompressor.steps));
      }
      out := out + buffer[..bytes];
    }
    r := Ok(Some(out));
  }

  // ---------------------------------------------------------------------
  // Properties of compress and decompress
  // ---------------------------------------------------------------------

  /** The text compress returns Base64-decodes to the concatenation of every
      chunk the Deflater wrote. */
  lemma CompressDecodes(engine: ZlibEngine, input: Bytes)
    ensures Base64.Decode(CompressSpec(engine, Some(input)).value) == Some(Concat(engine.deflate(input)))
  {
    Base64.DecodeEncode(Concat(engine.deflate(input)));
  }

  /** decompress(compress(s)) == s whenever inflating undoes deflating:
      the inflater halts on the compressed bytes, and the corrected loop
      returns what it wrote. */
  lemma RoundTrip(engine: ZlibEngine, s: Bytes)
    requires engine.Inverts()
    ensures InflateStops(engine, CompressSpec(engine, Some(s)))
    ensures DecompressSpec(engine, CompressSpec(engine, Some(s))) == Ok(Some(s))
  {
    var compressed := Concat(engine.deflate(s));
    Base64.DecodeEncode(compressed);
    DrainFinishes(engine.inflate(compressed), s);
  }

  /** As the source writes it, the round trip holds exactly when the
      inflate call that finishes the stream is not starved. */
  lemma AsWrittenRoundTrip(engine: ZlibEngine, s: Bytes)
    requires engine.Inverts()
    ensures InflateUnstalled(engine, CompressSpec(engine, Some(s)))
    ensures var steps := engine.inflate(Concat(engine.deflate(s)));
      DecompressAsWrittenSpec(engine, CompressSpec(engine, Some(s))) ==
        if Starved(steps[FirstStop(steps)]) then Err(InputTruncated) else Ok(Some(s))
  {
    var compressed := Concat(engine.deflate(s));
    Base64.DecodeEncode(compressed);
    AsWrittenFinishes(engine.inflate(compressed), s);
  }
}
