/**
  The byte source every reader reads from: the underlying stream (its bytes
  and a position, which a seek may move past the end) and the decompression
  gate. While the gate is open, reads come from the inflated bytes of a
  compressed span, at their own position, and the outer position stays where
  the span ended.

  A read asks the active stream for n bytes. `Stream.Read` hands out what is
  there, so a short read still consumes the rest of the active stream; the
  readers then throw `EndOfStreamException`.
*/
module Sources {
  import opened Base

  /** Where reads come from: the outer stream, or inflated bytes and how many of them were read. */
  datatype Gate = Direct | Inflating(inflated: seq<byte>, at: nat)

  datatype Source = Source(data: seq<byte>, pos: nat, gate: Gate)
  {
    predicate Gated() { gate.Inflating? }

    /** The outer bytes from the position on; none once a seek has gone past the end. */
    function OuterRemaining(): seq<byte>
    {
      if pos <= |data| then data[pos..] else []
    }

    /** The bytes the next read would see. */
    function Remaining(): seq<byte>
    {
      match gate
      case Direct => OuterRemaining()
      case Inflating(inflated, at) => if at <= |inflated| then inflated[at..] else []
    }

    /** The source after the active stream has handed out k more bytes. */
    function Consume(k: nat): (t: Source)
      requires k <= |Remaining()|
      ensures t.Remaining() == Remaining()[k..]
      ensures t.data == data && t.Gated() == Gated()
      ensures Gated() ==> t.pos == pos && t.gate.inflated == gate.inflated
      ensures !Gated() ==> t.pos == pos + k
    {
      match gate
      case Direct => Source(data, pos + k, gate)
      case Inflating(inflated, at) => Source(data, pos, Inflating(inflated, at + k))
    }
  }

  /** The result of an operation on a source, and the source after it. */
  datatype Step<+T> = Step(result: Result<T>, after: Source)

  /** Every public reader operation first checks that the reader was not disposed. */
  function Guarded<T>(disposed: bool, s: Source, step: Step<T>): Step<T>
  {
    if disposed then Step(Err(ObjectDisposed), s) else step
  }

  /** A sequence result with some already read items put in front. */
  function Prepend<T>(prefix: seq<T>, step: Step<seq<T>>): Step<seq<T>>
  {
    if step.result.Ok? then Step(Ok(prefix + step.result.value), step.after) else step
  }

  lemma PrependNothing<T>(step: Step<seq<T>>)
    ensures Prepend([], step) == step
  {
    if step.result.Ok? {
      assert [] + step.result.value == step.result.value;
    }
  }

  lemma PrependPrepend<T>(a: seq<T>, b: seq<T>, step: Step<seq<T>>)
    ensures Prepend(a, Prepend(b, step)) == Prepend(a + b, step)
  {
    if step.result.Ok? {
      assert a + (b + step.result.value) == (a + b) + step.result.value;
    }
  }

  /**
    One more item read: what was still to come is that item and then the
    rest, so the whole is the longer prefix and then the rest.
  */
  lemma PrependStep<T>(whole: Step<seq<T>>, prefix: seq<T>, next: Step<seq<T>>, x: T, rest: Step<seq<T>>)
    requires whole == Prepend(prefix, next) && next == Prepend([x], rest)
    ensures whole == Prepend(prefix + [x], rest)
  {
    PrependPrepend(prefix, [x], rest);
  }

  /**
    `Stream.Read` of n bytes from the active stream, treated as the readers
    treat it: fewer than n bytes is an end-of-stream error.
  */
  function ReadRaw(s: Source, n: nat): (r: Step<seq<byte>>)
    ensures r.result.Ok? <==> n <= |s.Remaining()|
    ensures r.result.Ok? ==> r.result.value == s.Remaining()[..n] && r.after.Remaining() == s.Remaining()[n..]
    ensures r.result.Err? ==> r.result.error == EndOfStream && r.after.Remaining() == []
    ensures r.after.data == s.data && r.after.Gated() == s.Gated()
    ensures s.Gated() ==> r.after.pos == s.pos
  {
    var rem := s.Remaining();
    if n <= |rem| then Step(Ok(rem[..n]), s.Consume(n))
    else Step(Err(EndOfStream), s.Consume(|rem|))
  }

  /** Two reads in a row see the same bytes as one read of their combined length. */
  lemma ReadRawConcat(s: Source, n: nat, m: nat)
    requires ReadRaw(s, n).result.Ok?
    ensures var first := ReadRaw(s, n); var second := ReadRaw(first.after, m);
      ReadRaw(s, n + m).result.Ok? == second.result.Ok?
      && (second.result.Ok? ==> ReadRaw(s, n + m).result.value == first.result.value + second.result.value)
      && ReadRaw(s, n + m).after.Remaining() == second.after.Remaining()
  {
    var rem := s.Remaining();
    if n + m <= |rem| {
      assert rem[..n + m] == rem[..n] + rem[n..][..m];
    }
  }

  /**
    `Stream.Seek(offset, SeekOrigin.Current)` on the outer stream. A target
    before the start throws an `IOException`; a target past the end is allowed.
  */
  function SeekOuter(s: Source, offset: int): (r: Step<()>)
    ensures r.result.Ok? <==> s.pos + offset >= 0
    ensures r.result.Ok? ==> r.after == s.(pos := s.pos + offset)
    ensures r.result.Err? ==> r.result.error == SeekBeforeBegin && r.after == s
  {
    if s.pos + offset < 0 then Step(Err(SeekBeforeBegin), s)
    else Step(Ok(()), s.(pos := s.pos + offset))
  }

  /** `Stream.ReadByte` on the inflated stream, k times: stops at the end without an error. */
  function SkipInflated(s: Source, count: int): (t: Source)
    requires s.Gated()
    ensures t.Gated() && t.pos == s.pos && t.data == s.data
    ensures count <= 0 ==> t == s
    ensures 0 <= count <= |s.Remaining()| ==> t.Remaining() == s.Remaining()[count..]
    ensures count >= |s.Remaining()| ==> t.Remaining() == []
  {
    var rem := s.Remaining();
    if count <= 0 then s
    else if count <= |rem| then s.Consume(count)
    else s.Consume(|rem|)
  }

  /**
    Reads `count` outer bytes, whichever stream is active, and opens the gate
    on their inflated form. A negative count fails allocating the buffer.
  */
  function BeginDecompress(s: Source, count: int, inflate: seq<byte> -> seq<byte>): (r: Step<()>)
  {
    var outer := s.OuterRemaining();
    if count < 0 then Step(Err(Overflow), s)
    else if count <= |outer| then
      Step(Ok(()), Source(s.data, s.pos + count, Inflating(inflate(outer[..count]), 0)))
    else Step(Err(EndOfStream), Source(s.data, s.pos + |outer|, s.gate))
  }

  /** Closes the gate: reads come from the outer stream again. */
  function EndDecompress(s: Source): (t: Source)
    ensures !t.Gated() && t.data == s.data && t.pos == s.pos
  {
    s.(gate := Direct)
  }

  /**
    Opening the gate consumes exactly `count` outer bytes or fails; while it
    is open the inflated bytes are read from their start.
  */
  lemma BeginDecompressConsumes(s: Source, count: int, inflate: seq<byte> -> seq<byte>)
    ensures var r := BeginDecompress(s, count, inflate);
      && (r.result.Ok? <==> 0 <= count <= |s.OuterRemaining()|)
      && (count < 0 ==> r == Step(Err(Overflow), s))
      && (count > |s.OuterRemaining()| ==> r.result == Err(EndOfStream) && r.after.OuterRemaining() == [])
      && (r.result.Ok? ==>
            && r.after.Gated()
            && r.after.Remaining() == inflate(s.OuterRemaining()[..count])
            && r.after.OuterRemaining() == s.OuterRemaining()[count..])
  {
  }

  /**
    Whatever is read or skipped inside the gate, closing it resumes the outer
    stream right after the compressed span; closing it twice changes nothing more.
  */
  lemma EndDecompressResumes(s: Source, count: int, inflate: seq<byte> -> seq<byte>, k: nat, skip: int)
    requires BeginDecompress(s, count, inflate).result.Ok?
    requires k <= |BeginDecompress(s, count, inflate).after.Remaining()|
    ensures var gated := BeginDecompress(s, count, inflate).after;
      var inside := SkipInflated(ReadRaw(gated, k).after, skip);
      && EndDecompress(inside).OuterRemaining() == s.OuterRemaining()[count..]
      && EndDecompress(inside).Remaining() == s.OuterRemaining()[count..]
      && EndDecompress(EndDecompress(inside)) == EndDecompress(inside)
  {
  }
}
