/** What can be written to a channel: the types that `headHandler` and `utils.ToBytes` distinguish. */
module Messages {
  import opened Common
  import opened Slices
  import opened PowersOfTwo
  import opened Streams

  /**
   What else a writer-to does: it may pass nil slices before anything else, it reports a total and possibly an
   error in the end, and it may be a reader as well.
   */
  datatype Habits = Habits(nils: nat, reported: nat, failed: bool, readable: bool)

  /**
   A writer-to passes slices whose bytes it leaves alone (as `bytes.Reader` and `strings.Reader` do), or chunks
   that come one after the other into the same buffer.
   */
  datatype Message =
    | ByteSlice(s: Slice)
    | SliceList(ps: seq<Slice>)
    | Text(bytes: seq<byte>)
    | Buffer(s: Slice)
    | KeepingWriter(ps: seq<Slice>, habits: Habits)
    | ReusingWriter(buf: array<byte>, chunks: seq<seq<byte>>, habits: Habits)
    | FromReader(r: Reader)
    | Unrecognized
  {
    predicate Valid()
    {
      match this
      case ReusingWriter(buf, chunks, _) =>
        buf.Length < 2 * HEAD_BIT && forall i :: 0 <= i < |chunks| ==> |chunks[i]| <= buf.Length
      case _ => AllSlices(Parts())
    }

    /** The parts of the message that are slices in memory and stay as they are. */
    function Parts(): (ps: seq<Slice>)
    {
      match this
      case ByteSlice(s) => [s]
      case SliceList(ps) => ps
      case Buffer(s) => [s]
      case KeepingWriter(ps, _) => ps
      case _ => []
    }

    predicate IsWriterTo() { KeepingWriter? || ReusingWriter? }

    /** What writing the message changes outside the channel. */
    function Consumed(): (r: set<object>)
    {
      match this
      case ReusingWriter(buf, _, _) => {buf}
      case FromReader(r) => {r}
      case _ => {}
    }

    /** The bytes the message stands for. */
    ghost function Content(): (r: seq<byte>)
      requires Valid()
      reads Arrays(Parts()), Consumed()
    {
      match this
      case Text(bytes) => bytes
      case ReusingWriter(_, chunks, _) => Concat(chunks)
      case FromReader(r) => r.rest
      case _ => Joined(Parts())
    }
  }
}
