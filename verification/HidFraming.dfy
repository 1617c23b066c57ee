/** HID packets: cutting an APDU into packets and reading it back. */
module HidFraming {
  import opened Words
  import opened Wrappers

  const PACKET: nat := 64
  const HEADER: nat := 5
  const ROOM: nat := PACKET - HEADER

  // ---- Packets -------------------------------------------------------------------------------

  function BigEndian(n: uint16): (s: seq<uint8>)
    ensures |s| == 2 && s[0] as int * 256 + s[1] as int == n
  {
    [n / 256, n % 256]
  }

  /** Channel, command tag and sequence number. */
  function Header(seqNo: uint16): (s: seq<uint8>)
    ensures |s| == HEADER
  {
    [0x01, 0x01, 0x05] + BigEndian(seqNo)
  }

  /** The packets of a byte string, numbered from a given number. */
  function Packets(seqNo: nat, s: seq<uint8>): seq<seq<uint8>>
    decreases |s|
  {
    if s == [] then []
    else if |s| <= ROOM then [Header(seqNo % 0x1_0000) + s]
    else [Header(seqNo % 0x1_0000) + s[..ROOM]] + Packets(seqNo + 1, s[ROOM..])
  }

  /** What is sent for a payload: its length, then its bytes. */
  function Framed(p: seq<uint8>): seq<uint8> {
    BigEndian(|p| % 0x1_0000) + p
  }

  function Zeros(n: nat): (s: seq<uint8>)
    ensures |s| == n && forall i :: 0 <= i < n ==> s[i] == 0
  {
    seq(n, _ => 0)
  }

  /** A packet as it arrives. */
  function Padded(packet: seq<uint8>): seq<uint8> {
    if |packet| < PACKET then packet + Zeros(PACKET - |packet|) else packet
  }

  function Arriving(packets: seq<seq<uint8>>): (a: seq<seq<uint8>>)
    ensures |a| == |packets| && forall i :: 0 <= i < |a| ==> a[i] == Padded(packets[i])
  {
    seq(|packets|, i requires 0 <= i < |packets| => Padded(packets[i]))
  }

  // ---- The reader as a value --------------------------------------------------------------------

  /** The reader's fields and the packets the device has yet to deliver. */
  datatype Reader = Reader(seqNo: uint16, buf: seq<uint8>, pos: nat, incoming: seq<seq<uint8>>)

  datatype Error = EndOfFile | UnexpectedEnd | TooShort | BadChannel | BadTag | BadSequence

  datatype ReadResult = Data(reader: Reader, bytes: seq<uint8>) | Failed(reader: Reader, error: Error)

  function Take<T>(s: seq<T>, n: nat): (t: seq<T>)
    ensures t <= s && |t| == if n < |s| then n else |s|
  {
    if n < |s| then s[..n] else s
  }

  predicate Sane(r: Reader) {
    |r.buf| == PACKET && r.pos <= PACKET
  }

  /** The checks on a packet, in order. */
  function Check(packet: seq<uint8>, seqNo: uint16): (error: Option<Error>)
    ensures error == None ==> |packet| == PACKET
    ensures error == Some(TooShort) <==> |packet| != PACKET
  {
    if |packet| != PACKET then Some(TooShort)
    else if packet[0] != 0x01 || packet[1] != 0x01 then Some(BadChannel)
    else if packet[2] != 0x05 then Some(BadTag)
    else if packet[3] as int * 256 + packet[4] as int != seqNo then Some(BadSequence)
    else None
  }

  /** A packet passes exactly with 64 bytes that start with channel 0x0101, tag 5
      and the expected number; otherwise the first of these that fails is told. */
  lemma PacketChecked(packet: seq<uint8>, n: uint16)
    ensures Check(packet, n) ==
      if |packet| != 64 then Some(TooShort)
      else if packet[..2] != [1, 1] then Some(BadChannel)
      else if packet[2] != 5 then Some(BadTag)
      else if packet[3..5] != [n / 256, n % 256] then Some(BadSequence)
      else None
  {
    if |packet| == 64 {
      assert packet[..2] == [packet[0], packet[1]] && packet[3..5] == [packet[3], packet[4]];
      TwoDigits(packet[3], packet[4], n);
    }
  }

  lemma TwoDigits(h: uint8, l: uint8, n: uint16)
    ensures h * 256 + l == n <==> h == n / 256 && l == n % 256
  {
  }

  /** One call with a destination of n bytes. */
  function Read(r: Reader, n: nat): (result: ReadResult)
    requires Sane(r)
    ensures Sane(result.reader) || result == Failed(result.reader, TooShort)
  {
    if r.seqNo > 0 && r.pos != PACKET then
      var bytes := Take(r.buf[r.pos..], n);
      Data(r.(pos := r.pos + |bytes|), bytes)
    else if r.incoming == [] then Failed(r, EndOfFile)
    else
      var packet := r.incoming[0];
      var r' := r.(buf := packet, incoming := r.incoming[1..]);
      var error := Check(packet, r.seqNo);
      if error.Some? then Failed(r', error.value)
      else
        var bytes := Take(packet[HEADER..], n);
        Data(r'.(seqNo := (r.seqNo + 1) % 0x1_0000, pos := HEADER + |bytes|), bytes)
  }

  /** Calls with destinations of the given sizes, until one fails; the bytes
      delivered, in order. */
  function ReadMany(r: Reader, sizes: seq<nat>): (result: (Reader, seq<uint8>))
    requires Sane(r)
    decreases |sizes|
  {
    if sizes == [] then (r, []) else
      match Read(r, sizes[0])
      case Failed(r', e) => (r', [])
      case Data(r', bytes) =>
        var rest := ReadMany(r', sizes[1..]);
        (rest.0, bytes + rest.1)
  }

  /** What filling a destination delivers, and the error that ended it. */
  datatype Filling = Filling(reader: Reader, bytes: seq<uint8>, error: Option<Error>)

  /** Calls until a destination of n bytes is full or one fails. */
  function Fill(r: Reader, n: nat): (f: Filling)
    requires Sane(r)
    ensures |f.bytes| <= n
    ensures f.error == None ==> |f.bytes| == n && Sane(f.reader)
    decreases n
  {
    if n == 0 then Filling(r, [], None) else
      match Read(r, n)
      case Failed(r', e) => Filling(r', [], Some(e))
      case Data(r', bytes) =>
        Progress(r, n);
        var rest := Fill(r', n - |bytes|);
        rest.(bytes := bytes + rest.bytes)
  }

  lemma Progress(r: Reader, n: nat)
    requires Sane(r) && n > 0 && Read(r, n).Data?
    ensures 0 < |Read(r, n).bytes| <= n && Sane(Read(r, n).reader)
  {
    hide Check;
  }

  /** The error io.ReadFull reports. */
  function Reported(f: Filling): Option<Error> {
    if f.error == Some(EndOfFile) && f.bytes != [] then Some(UnexpectedEnd) else f.error
  }

  // ---- The stream -------------------------------------------------------------------------------

  /** The payload bytes of packets. */
  function Payload(packets: seq<seq<uint8>>): seq<uint8>
    requires forall p <- packets :: |p| == PACKET
  {
    if packets == [] then [] else packets[0][HEADER..] + Payload(packets[1..])
  }

  /** The packets to come carry the numbers the reader will expect. */
  predicate InOrder(seqNo: nat, packets: seq<seq<uint8>>) {
    && seqNo + |packets| < 0x1_0000
    && (forall i :: 0 <= i < |packets| ==> |packets[i]| == PACKET && packets[i][..HEADER] == Header(seqNo + i))
  }

  predicate Good(r: Reader) {
    Sane(r) && InOrder(r.seqNo, r.incoming)
  }

  /** Everything the reader has still to deliver. */
  function Stream(r: Reader): seq<uint8>
    requires Good(r)
  {
    (if r.seqNo > 0 then r.buf[r.pos..] else []) + Payload(r.incoming)
  }

  lemma CheckPasses(packet: seq<uint8>, seqNo: uint16)
    requires |packet| == PACKET && packet[..HEADER] == Header(seqNo)
    ensures Check(packet, seqNo) == None
  {
    assert forall i :: 0 <= i < HEADER ==> packet[i] == packet[..HEADER][i];
  }

  lemma OrderTail(seqNo: nat, packets: seq<seq<uint8>>)
    requires packets != [] && InOrder(seqNo, packets)
    ensures |packets[0]| == PACKET && packets[0][..HEADER] == Header(seqNo) && InOrder(seqNo + 1, packets[1..])
    ensures seqNo + 1 < 0x1_0000
    ensures Payload(packets) == packets[0][HEADER..] + Payload(packets[1..])
  {
    hide Header;
    assert forall i :: 0 <= i < |packets[1..]| ==> packets[1..][i] == packets[i + 1];
  }

  /** A call delivers the next bytes of the stream, at least one unless none was
      asked for, and fails only at the end of the stream. */
  lemma ReadNext(r: Reader, n: nat)
    requires Good(r)
    ensures
      match Read(r, n)
      case Failed(r', e) => Stream(r) == [] && e == EndOfFile && r' == r
      case Data(r', bytes) => Good(r') && Stream(r) == bytes + Stream(r') && |bytes| <= n && (n > 0 ==> bytes != [])
  {
    hide Check, Header, InOrder, Payload, Take;
    if r.seqNo > 0 && r.pos != PACKET {
      var bytes := Take(r.buf[r.pos..], n);
      assert r.buf[r.pos..] == bytes + r.buf[r.pos + |bytes|..];
    } else if r.incoming == [] {
      FirstOfNone(r.incoming);
    } else {
      var packet := r.incoming[0];
      OrderTail(r.seqNo, r.incoming);
      CheckPasses(packet, r.seqNo);
      var bytes := Take(packet[HEADER..], n);
      assert packet[HEADER..] == bytes + packet[HEADER + |bytes|..];
    }
  }

  lemma FirstOfNone(packets: seq<seq<uint8>>)
    requires packets == []
    ensures Payload(packets) == []
  {
  }

  /** With any sequence of destination sizes the bytes delivered are a prefix of
      the stream and the rest is still to come; nothing is lost, repeated or
      reordered. */
  lemma {:induction false} ReadsStream(r: Reader, sizes: seq<nat>)
    requires Good(r)
    ensures
      var result := ReadMany(r, sizes);
      Good(result.0) && Stream(r) == result.1 + Stream(result.0)
    decreases |sizes|
  {
    hide Read, Good, Stream;
    if sizes == [] {
      GoodSane(r);
    } else {
      GoodSane(r);
      ReadNext(r, sizes[0]);
      match Read(r, sizes[0])
      case Failed(_, _) => {}
      case Data(r', bytes) => ReadsStream(r', sizes[1..]);
    }
  }

  /** Filling a destination takes as much of the stream as it has room for. */
  lemma {:induction false} FillsStream(r: Reader, n: nat)
    requires Good(r)
    ensures Sane(r)
    ensures
      var f, stream := Fill(r, n), Stream(r);
      && Good(f.reader)
      && (if |stream| >= n then f.error == None && f.bytes == stream[..n] && Stream(f.reader) == stream[n..]
          else f.error == Some(EndOfFile) && f.bytes == stream && Stream(f.reader) == [])
    decreases n
  {
    hide Read, Good, Stream;
    GoodSane(r);
    if n > 0 {
      ReadNext(r, n);
      match Read(r, n)
      case Failed(_, _) => {}
      case Data(r', bytes) => FillsStream(r', n - |bytes|);
    }
  }

  /** The reader with only the first of its packets. */
  function Until(r: Reader, k: nat): Reader
    requires k <= |r.incoming|
  {
    r.(incoming := r.incoming[..k])
  }

  /** When packet k fails a check, filling delivers the stream of the packets before
      it, and fails with that error if and only if more is asked for. */
  lemma {:induction false} BadPacket(r: Reader, k: nat, n: nat)
    requires k < |r.incoming| && Good(Until(r, k))
    requires r.seqNo + k < 0x1_0000 && Check(r.incoming[k], r.seqNo + k).Some?
    ensures Sane(r)
    ensures
      var f, stream := Fill(r, n), Stream(Until(r, k));
      if n <= |stream| then f.error == None && f.bytes == stream[..n]
      else f.error == Check(r.incoming[k], r.seqNo + k) && f.bytes == stream
    decreases n
  {
    hide Check, Good, Stream, Read;
    GoodSane(Until(r, k));
    if n > 0 {
      ReadNext(Until(r, k), n);
      AtPacket(r, k, n);
      match Read(r, n)
      case Failed(_, _) => {}
      case Data(r', bytes) => BadPacket(r', k - (|r.incoming| - |r'.incoming|), n - |bytes|);
    }
  }

  /** One call before or at a packet that fails a check. */
  lemma AtPacket(r: Reader, k: nat, n: nat)
    requires k < |r.incoming| && Good(Until(r, k)) && Sane(r)
    requires r.seqNo + k < 0x1_0000 && Check(r.incoming[k], r.seqNo + k).Some?
    ensures
      match Read(Until(r, k), n)
      case Failed(_, _) => k == 0 && Read(r, n).Failed? && Read(r, n).error == Check(r.incoming[0], r.seqNo).value
      case Data(g, bytes) =>
        var j := |r.incoming| - |Read(r, n).reader.incoming|;
        && Read(r, n).Data? && Read(r, n).bytes == bytes && j <= k
        && var r' := Read(r, n).reader;
           g == Until(r', k - j) && r'.incoming[k - j] == r.incoming[k] && r'.seqNo + k - j == r.seqNo + k
  {
    hide Check, Take, InOrder, Header, Payload;
    if !(r.seqNo > 0 && r.pos != PACKET) && k > 0 {
      assert r.incoming[..k][0] == r.incoming[0] && r.incoming[..k][1..] == r.incoming[1..][..k - 1];
      assert r.incoming[1..][k - 1] == r.incoming[k];
      OrderTail(r.seqNo, r.incoming[..k]);
      CheckPasses(r.incoming[0], r.seqNo);
    }
  }

  lemma GoodSane(r: Reader)
    requires Good(r)
    ensures Sane(r)
  {
  }

  // ---- Written packets, read back -----------------------------------------------------------------

  predicate AllZero(s: seq<uint8>) {
    forall i :: 0 <= i < |s| ==> s[i] == 0
  }

  /** The packets of a byte string arrive in order and carry it, followed by the
      padding of the last one. */
  lemma {:induction false} PacketsCarry(seqNo: nat, s: seq<uint8>)
    requires seqNo + |s| / ROOM + 1 < 0x1_0000
    ensures |Packets(seqNo, s)| <= |s| / ROOM + 1
    ensures InOrder(seqNo, Arriving(Packets(seqNo, s)))
    ensures Carries(Payload(Arriving(Packets(seqNo, s))), s)
    decreases |s|
  {
    hide BigEndian, Payload, Header, InOrder, Padded, Carries;
    var packets := Packets(seqNo, s);
    if s == [] {
      NoPackets(seqNo, Arriving(packets));
    } else if |s| <= ROOM {
      var last := Header(seqNo % 0x1_0000) + s;
      NoPackets(seqNo + 1, []);
      OnePacket(seqNo, s, [], []);
      assert Arriving(packets) == [Padded(last)] + [];
      assert s + [] == s;
    } else {
      var first, rest := Header(seqNo % 0x1_0000) + s[..ROOM], Packets(seqNo + 1, s[ROOM..]);
      PacketsCarry(seqNo + 1, s[ROOM..]);
      OnePacket(seqNo, s[..ROOM], s[ROOM..], Arriving(rest));
      assert Arriving(packets) == [Padded(first)] + Arriving(rest);
      assert s == s[..ROOM] + s[ROOM..];
    }
  }

  /** A payload is a byte string and padding. */
  predicate Carries(payload: seq<uint8>, s: seq<uint8>) {
    s <= payload && AllZero(payload[|s|..])
  }

  lemma NoPackets(seqNo: nat, packets: seq<seq<uint8>>)
    requires packets == [] && seqNo < 0x1_0000
    ensures InOrder(seqNo, packets) && Payload(packets) == [] && Carries([], [])
  {
  }

  /** One more packet in front; only the last one may be padded. */
  lemma OnePacket(seqNo: nat, s: seq<uint8>, t: seq<uint8>, rest: seq<seq<uint8>>)
    requires |s| <= ROOM && (|s| < ROOM ==> t == [] && rest == [])
    requires InOrder(seqNo + 1, rest) && Carries(Payload(rest), t)
    ensures
      var all := [Padded(Header(seqNo % 0x1_0000) + s)] + rest;
      InOrder(seqNo, all) && Carries(Payload(all), s + t)
  {
    hide BigEndian, Header, Padded, Payload, Carries;
    var packet := Padded(Header(seqNo % 0x1_0000) + s);
    PaddedPacket(Header(seqNo % 0x1_0000) + s, s);
    InFront(seqNo, packet, rest);
    if rest == [] {
      FirstOfNone(rest);
    }
    CarriesMore(s, Zeros(ROOM - |s|), Payload(rest), t);
  }

  lemma InFront(seqNo: nat, packet: seq<uint8>, rest: seq<seq<uint8>>)
    requires InOrder(seqNo + 1, rest) && |packet| == PACKET && packet[..HEADER] == Header(seqNo % 0x1_0000)
    ensures InOrder(seqNo, [packet] + rest)
    ensures Payload([packet] + rest) == packet[HEADER..] + Payload(rest)
  {
    hide BigEndian, Header;
    var all := [packet] + rest;
    assert all[1..] == rest && seqNo % 0x1_0000 == seqNo;
    forall i | 0 <= i < |all| ensures |all[i]| == PACKET && all[i][..HEADER] == Header(seqNo + i) {
      if i > 0 {
        assert all[i] == rest[i - 1];
      }
    }
    FirstPayload(all);
  }

  lemma CarriesMore(s: seq<uint8>, zeros: seq<uint8>, payload: seq<uint8>, t: seq<uint8>)
    requires AllZero(zeros) && (zeros != [] ==> t == [] && payload == []) && Carries(payload, t)
    ensures Carries(s + zeros + payload, s + t)
  {
    if zeros == [] {
      assert s + zeros + payload == s + payload;
      assert (s + payload)[|s + t|..] == payload[|t|..];
    }
  }

  lemma FirstPayload(packets: seq<seq<uint8>>)
    requires packets != [] && forall p <- packets :: |p| == PACKET
    ensures Payload(packets) == packets[0][HEADER..] + Payload(packets[1..])
  {
  }

  lemma PaddedPacket(packet: seq<uint8>, s: seq<uint8>)
    requires |s| <= ROOM && |packet| == HEADER + |s| && packet[HEADER..] == s
    ensures |Padded(packet)| == PACKET && Padded(packet)[..HEADER] == packet[..HEADER]
    ensures Padded(packet)[HEADER..] == s + Zeros(ROOM - |s|)
  {
  }

  /** Every packet, byte by byte: channel 0x0101, tag 5, its number, and the next
      59 bytes of what is sent, or what is left of it. */
  lemma {:induction false} PacketAt(seqNo: nat, s: seq<uint8>, k: nat)
    requires 59 * k < |s|
    ensures |Packets(seqNo, s)| == (|s| + 58) / 59 > k
    ensures Packets(seqNo, s)[k] ==
      [1, 1, 5, (seqNo + k) / 256 % 256, (seqNo + k) % 256]
      + s[59 * k..if 59 * k + 59 < |s| then 59 * k + 59 else |s|]
    decreases |s|
  {
    hide Header;
    NumberBytes(seqNo);
    if |s| <= 59 {
      assert s[0..|s|] == s;
    } else if k == 0 {
      PacketAt(seqNo + 1, s[59..], 0);
    } else {
      var rest := s[59..];
      PacketAt(seqNo + 1, rest, k - 1);
      var end := if 59 * k + 59 < |s| then 59 * k + 59 else |s|;
      assert rest[59 * (k - 1)..end - 59] == s[59 * k..end];
    }
  }

  lemma NumberBytes(n: nat)
    ensures Header(n % 0x1_0000) == [1, 1, 5, n / 256 % 256, n % 256]
  {
    TwoBytes(n);
    assert BigEndian(n % 0x1_0000) == [n / 256 % 256, n % 256];
  }

  lemma TwoBytes(n: nat)
    ensures n % 0x1_0000 / 256 == n / 256 % 256 && n % 0x1_0000 % 256 == n % 256
  {
    var h, r := n / 0x1_0000, n % 0x1_0000;
    assert n == (h * 256 + r / 256) * 256 + r % 256;
    DivModUnique(n, 256, h * 256 + r / 256, r % 256);
    DivModUnique(h * 256 + r / 256, 256, h, r / 256);
  }

  /** What is sent for a payload: its length, the high byte first, and its bytes. */
  lemma FramedBytes(p: seq<uint8>)
    ensures Framed(p) == [|p| / 256 % 256, |p| % 256] + p
  {
    TwoBytes(|p|);
  }

  /** A reader that was reset, before the packets of a payload arrive. */
  function Waiting(buf: seq<uint8>, pos: nat, p: seq<uint8>): Reader {
    Reader(0, buf, pos, Arriving(Packets(0, Framed(p))))
  }

  /** For every payload of at most 65535 bytes, its padded packets read with any
      destination sizes give the length and then the payload, followed only by
      the padding; no header or sequence check fails. */
  lemma FramingRoundTrip(buf: seq<uint8>, pos: nat, p: seq<uint8>, sizes: seq<nat>)
    requires |p| < 0x1_0000 && |buf| == PACKET && pos <= PACKET
    ensures Good(Waiting(buf, pos, p))
    ensures
      var bytes, whole := ReadMany(Waiting(buf, pos, p), sizes).1, Framed(p);
      if |bytes| <= |whole| then bytes == whole[..|bytes|]
      else bytes[..|whole|] == whole && AllZero(bytes[|whole|..])
    ensures |p| + 2 <= |Stream(Waiting(buf, pos, p))|
  {
    hide Packets, Framed, ReadMany, Payload, InOrder;
    FramedSize(p);
    PacketsCarry(0, Framed(p));
    var r := Waiting(buf, pos, p);
    ReadsStream(r, sizes);
    var stream, bytes := Stream(r), ReadMany(r, sizes).1;
    assert stream[..|bytes|] == bytes;
    if |bytes| <= |Framed(p)| {
      assert stream[..|Framed(p)|][..|bytes|] == bytes;
    } else {
      assert bytes[..|Framed(p)|] == stream[..|Framed(p)|];
      assert forall i :: |Framed(p)| <= i < |bytes| ==> bytes[i] == stream[|Framed(p)|..][i - |Framed(p)|];
    }
  }

  lemma FramedSize(p: seq<uint8>)
    ensures |Framed(p)| == |p| + 2
  {
  }

  // ---- The framer -------------------------------------------------------------------------------

  class HidFramer {
    var seqNo: uint16
    const buf: array<uint8>
    var pos: nat
    var incoming: seq<seq<uint8>>
    var outgoing: seq<seq<uint8>>

    /** How many more packets the transport takes, and how much of the next one it
        then claims to have written. */
    var room: nat
    var partial: nat

    constructor ()
      ensures Valid() && seqNo == 0 && incoming == [] && outgoing == [] && fresh(buf)
    {
      buf := new uint8[PACKET];
      seqNo, pos, incoming, outgoing := 0, 0, [], [];
    }

    ghost predicate Valid()
      reads this
    {
      buf.Length == PACKET && pos <= PACKET
    }

    ghost function View(): Reader
      reads this, buf
    {
      Reader(seqNo, buf[..], pos, incoming)
    }

    /** Reset. */
    method Reset()
      requires Valid()
      modifies this`seqNo
      ensures Valid() && View() == old(View()).(seqNo := 0)
    {
      seqNo := 0;
    }

    /** Write: the packets go out through one reused buffer, until the transport
        fails; its count for that packet is then returned. */
    method Write(p: seq<uint8>) returns (n: nat, failed: bool)
      modifies this`outgoing, this`room
      ensures
        var packets := Packets(0, Framed(p));
        && (failed <==> |packets| > old(room))
        && outgoing == old(outgoing) + Take(packets, old(room))
        && (!failed ==> n == |p| && room == old(room) - |packets|)
        && (failed ==> n == partial && room == 0)
    {
      hide Header, Framed, Packets, Take, BigEndian;
      var chunk := new uint8[PACKET];
      chunk[0], chunk[1], chunk[2] := 0x01, 0x01, 0x05;
      var next: uint16 := 0;
      ghost var k := 0;
      var rest := Framed(p);
      ghost var sent, all := outgoing, Packets(0, Framed(p));
      assert all[0..] == all && all[..0] == [];
      while rest != []
        invariant chunk[0] == 0x01 && chunk[1] == 0x01 && chunk[2] == 0x05
        invariant next == k % 0x1_0000 && k <= |all| && k + room == old(room)
        invariant all[k..] == Packets(k, rest)
        invariant outgoing == sent + all[..k]
        decreases |rest|
      {
        n := if |rest| < ROOM then |rest| else ROOM;
        FillPacket(chunk, next, rest[..n]);
        NextPacket(all, k, rest, n);
        if room == 0 {
          return partial, true;
        }
        outgoing := outgoing + [chunk[..HEADER + n]];
        room := room - 1;
        rest := rest[n..];
        next := (next + 1) % 0x1_0000;
        k := k + 1;
      }
      NoMorePackets(k);
      assert all[..k] == all;
      return |p|, false;
    }

    /** Writes the sequence number and the data of one packet. */
    static method FillPacket(chunk: array<uint8>, next: uint16, s: seq<uint8>)
      requires chunk.Length == PACKET && |s| <= ROOM
      requires chunk[0] == 0x01 && chunk[1] == 0x01 && chunk[2] == 0x05
      modifies chunk
      ensures chunk[0] == 0x01 && chunk[1] == 0x01 && chunk[2] == 0x05
      ensures chunk[..HEADER + |s|] == Header(next) + s
    {
      chunk[3], chunk[4] := next / 256, next % 256;
      forall i | 0 <= i < |s| {
        chunk[HEADER + i] := s[i];
      }
      assert chunk[..HEADER] == Header(next);
      assert chunk[HEADER..HEADER + |s|] == s;
      assert chunk[..HEADER + |s|] == chunk[..HEADER] + chunk[HEADER..HEADER + |s|];
    }

    /** Read into dst from a given position; at most n bytes. */
    method ReadInto(dst: array<uint8>, from: nat, n: nat) returns (got: nat, error: Option<Error>)
      requires Valid() && from + n <= dst.Length && dst != buf
      modifies this`seqNo, this`pos, this`incoming, buf, dst
      ensures Valid() && dst[..from] == old(dst[..from])
      ensures match Read(old(View()), n)
        case Data(r, bytes) => error == None && View() == r && got == |bytes| <= n && dst[from..from + got] == bytes
        case Failed(r, e) => error == Some(e) && got == 0 && (e != TooShort ==> View() == r)
    {
      hide BigEndian;
      if seqNo > 0 && pos != PACKET {
        got := Copy(dst, from, n);
        pos := pos + got;
        return got, None;
      }
      got, error := ReadPacket(dst, from, n);
    }

    /** Reads the next packet and starts filling dst from it. */
    method ReadPacket(dst: array<uint8>, from: nat, n: nat) returns (got: nat, error: Option<Error>)
      requires Valid() && from + n <= dst.Length && dst != buf && !(seqNo > 0 && pos != PACKET)
      modifies this`seqNo, this`pos, this`incoming, buf, dst
      ensures Valid() && dst[..from] == old(dst[..from])
      ensures match Read(old(View()), n)
        case Data(r, bytes) => error == None && View() == r && got == |bytes| <= n && dst[from..from + got] == bytes
        case Failed(r, e) => error == Some(e) && got == 0 && (e != TooShort ==> View() == r)
    {
      hide Check;
      if incoming == [] {
        return 0, Some(EndOfFile);
      }
      error := Receive();
      if error.Some? {
        return 0, error;
      }
      seqNo := (seqNo + 1) % 0x1_0000;
      pos := HEADER;
      got := Copy(dst, from, n);
      pos := HEADER + got;
      return got, None;
    }

    /** The next packet into buf, with its header checked. */
    method Receive() returns (error: Option<Error>)
      requires Valid() && incoming != []
      modifies this`incoming, buf
      ensures incoming == old(incoming[1..])
      ensures error == Check(old(incoming[0]), seqNo) && (error != Some(TooShort) ==> buf[..] == old(incoming[0]))
    {
      var packet := incoming[0];
      incoming := incoming[1..];
      if |packet| != PACKET {
        return Some(TooShort);
      }
      forall i | 0 <= i < PACKET {
        buf[i] := packet[i];
      }
      assert buf[..] == packet;
      if buf[0] != 0x01 || buf[1] != 0x01 {
        return Some(BadChannel);
      }
      if buf[2] != 0x05 {
        return Some(BadTag);
      }
      if buf[3] as int * 256 + buf[4] as int != seqNo {
        return Some(BadSequence);
      }
      return None;
    }

    /** Copies what the destination has room for from the unread part of buf. */
    method Copy(dst: array<uint8>, from: nat, n: nat) returns (got: nat)
      requires Valid() && from + n <= dst.Length && dst != buf
      modifies dst
      ensures got == |Take(buf[pos..], n)| && dst[from..from + got] == Take(buf[pos..], n)
      ensures dst[..from] == old(dst[..from])
    {
      got := if n < PACKET - pos then n else PACKET - pos;
      forall i | 0 <= i < got {
        dst[from + i] := buf[pos + i];
      }
    }

    /** io.ReadFull: reads until the destination is full or a call fails. A packet
        of another length stops the client. */
    method ReadFull(dst: array<uint8>) returns (error: Option<Error>)
      requires Valid() && dst != buf
      modifies this`seqNo, this`pos, this`incoming, buf, dst
      ensures Valid()
      ensures
        var f := Fill(old(View()), dst.Length);
        && error == Reported(f) && dst[..|f.bytes|] == f.bytes
        && (error != Some(TooShort) ==> View() == f.reader)
    {
      hide Read, Check, Fill, Continued;
      var at := 0;
      ghost var start := View();
      FillBegins(start, dst.Length, dst[..0]);
      while at < dst.Length
        invariant at <= dst.Length && Valid() && start == old(View())
        invariant Continued(Fill(start, dst.Length), dst[..at], Fill(View(), dst.Length - at))
        decreases dst.Length - at
      {
        ghost var done := dst[..at];
        FillMore(Fill(start, dst.Length), done, View(), dst.Length - at);
        var got;
        got, error := ReadInto(dst, at, dst.Length - at);
        if error.Some? {
          assert dst[..at] == done;
          error := if error == Some(EndOfFile) && at > 0 then Some(UnexpectedEnd) else error;
          return;
        }
        assert dst[..at + got] == done + dst[at..at + got];
        at := at + got;
      }
      FillDone(Fill(start, dst.Length), dst[..at], View());
      return None;
    }
  }

  /** The whole filling is some bytes and the rest of it. */
  predicate Continued(whole: Filling, done: seq<uint8>, rest: Filling) {
    whole == rest.(bytes := done + rest.bytes)
  }

  lemma FillBegins(r: Reader, n: nat, done: seq<uint8>)
    requires Sane(r) && done == []
    ensures Continued(Fill(r, n), done, Fill(r, n))
  {
    hide Fill;
  }

  /** One more call. */
  lemma FillMore(whole: Filling, done: seq<uint8>, r: Reader, n: nat)
    requires Sane(r) && n > 0 && Continued(whole, done, Fill(r, n))
    ensures
      match Read(r, n)
      case Failed(r', e) => whole == Filling(r', done, Some(e))
      case Data(r', bytes) =>
        0 < |bytes| <= n && Sane(r') && Continued(whole, done + bytes, Fill(r', n - |bytes|))
  {
    hide Read;
    match Read(r, n)
    case Failed(_, _) => {}
    case Data(r', bytes) =>
      Progress(r, n);
      assert done + (bytes + Fill(r', n - |bytes|).bytes) == done + bytes + Fill(r', n - |bytes|).bytes;
  }

  lemma FillDone(whole: Filling, done: seq<uint8>, r: Reader)
    requires Sane(r) && Continued(whole, done, Fill(r, 0))
    ensures whole == Filling(r, done, None)
  {
  }

  /** The next of the packets still to be sent. */
  lemma NextPacket(all: seq<seq<uint8>>, k: nat, rest: seq<uint8>, n: nat)
    requires k <= |all| && all[k..] == Packets(k, rest)
    requires rest != [] && n == if |rest| < ROOM then |rest| else ROOM
    ensures k < |all| && all[k] == Header(k % 0x1_0000) + rest[..n]
    ensures all[k + 1..] == Packets(k + 1, rest[n..]) && all[..k + 1] == all[..k] + [all[k]]
  {
    hide Header;
    assert all[k] == all[k..][0] && all[k + 1..] == all[k..][1..];
    if |rest| <= ROOM {
      assert rest[..n] == rest && rest[n..] == [];
    }
  }

  lemma NoMorePackets(k: nat)
    ensures Packets(k, []) == []
  {
  }

  /** The read half of Exchange as a value: after a reset the length, then as many
      bytes, of which there are fewer if the second part fails. */
  function Response(r: Reader): (f: Filling)
    requires Sane(r)
  {
    var head := Fill(r.(seqNo := 0), 2);
    if head.error.Some? then head.(bytes := [], error := Reported(head)) else
      var body := Fill(head.reader, head.bytes[0] as int * 256 + head.bytes[1] as int);
      body.(error := Reported(body))
  }

  /** The read half of Exchange. */
  method ReadResponse(hf: HidFramer) returns (resp: seq<uint8>, error: Option<Error>)
    requires hf.Valid()
    modifies hf`seqNo, hf`pos, hf`incoming, hf.buf
    ensures
      var f := Response(old(hf.View()));
      error == f.error && f.bytes <= resp && (error == None ==> resp == f.bytes)
  {
    hide Fill;
    hf.Reset();
    var head := new uint8[2];
    error := hf.ReadFull(head);
    if error.Some? {
      return [], error;
    }
    var body := new uint8[head[0] as int * 256 + head[1] as int];
    error := hf.ReadFull(body);
    resp := body[..];
  }

  /** It gives back the payload the device has framed. */
  lemma ResponseRead(r: Reader, p: seq<uint8>)
    requires Sane(r) && |p| < 0x1_0000 && r.incoming == Arriving(Packets(0, Framed(p)))
    ensures Response(r).error == None && Response(r).bytes == p
  {
    hide Stream, Packets, InOrder, BigEndian, Framed, Fill;
    var start := r.(seqNo := 0);
    FramedFirst(start, p);
    FillsStream(start, 2);
    var head := Fill(start, 2);
    LengthPrefix(p, head.bytes);
    FillsStream(head.reader, |p|);
  }

  /** The stream of a framed payload starts with it. */
  lemma FramedFirst(r: Reader, p: seq<uint8>)
    requires |p| < 0x1_0000 && r.seqNo == 0 && |r.buf| == PACKET && r.pos <= PACKET
    requires r.incoming == Arriving(Packets(0, Framed(p)))
    ensures Good(r) && |Stream(r)| >= |p| + 2
    ensures Stream(r)[..2] == BigEndian(|p| % 0x1_0000) && Stream(r)[2..][..|p|] == p
  {
    hide Packets, InOrder, BigEndian, Payload;
    FramedSize(p);
    PacketsCarry(0, Framed(p));
    assert Stream(r)[..|p| + 2] == Framed(p);
    assert Stream(r)[..2] == Framed(p)[..2] && Stream(r)[2..][..|p|] == Framed(p)[2..];
  }

  lemma LengthPrefix(p: seq<uint8>, head: seq<uint8>)
    requires |p| < 0x1_0000 && head == BigEndian(|p| % 0x1_0000)
    ensures head[0] as int * 256 + head[1] as int == |p|
  {
  }
}
