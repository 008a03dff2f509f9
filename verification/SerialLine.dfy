/** What the two serial-line framings, RTU and ASCII, have in common. */
module SerialLine {
  import opened Wire

  datatype Frame = Frame(slave: Byte, pdu: seq<Byte>)

  /** What a parser makes of a buffer: nothing yet, or a frame and the bytes it took. */
  datatype Parse = Nothing | Found(frame: Frame, consumed: nat)

  /** What a server sees of its line: bytes arriving, or the read timeout between them. */
  datatype Event = Chunk(bytes: seq<Byte>) | Silence

  /** Bytes arriving in these parts, with no silence in between. */
  function Chunks(parts: seq<seq<Byte>>): (events: seq<Event>)
    ensures |events| == |parts|
  {
    if parts == [] then [] else [Chunk(parts[0])] + Chunks(parts[1..])
  }
}
