/** The option field of a DHCP message: its encoding (section 2 of RFC 2132) and the scan that looks for
    the message type (option 53, section 9.6) and the requested address (option 50, section 9.1). */
module DhcpOptions {
  import opened Bytes

  const END: Byte := 255
  const PAD: Byte := 0
  const MESSAGE_TYPE: Byte := 53
  const REQUESTED_IP: Byte := 50

  datatype Found = Found(msgType: Byte, requested: Addr)

  const NOTHING: Found := Found(0, 0)

  /** What one option adds to what the options before it said. */
  function Note(found: Found, code: Byte, data: seq<Byte>): Found {
    if code == MESSAGE_TYPE && |data| == 1 then found.(msgType := data[0])
    else if code == REQUESTED_IP && |data| == 4 then found.(requested := Get32(data, 0))
    else found
  }

  /** The scan of the options in `msg`. A length byte is loaded before it is known to lie in the
      message; `past` is the byte behind the message. */
  function Scan(msg: seq<Byte>, past: Byte, found: Found): Found {
    if msg == [] || msg[0] == END then found
    else if msg[0] == PAD then Scan(msg[1..], past, found)
    else
      var len := if |msg| > 1 then msg[1] else past;
      if 2 + len > |msg| then found
      else Scan(msg[2 + len..], past, Note(found, msg[0], msg[2..2 + len]))
  }

  // ----- The encoding -----

  datatype Option = Pad | Tlv(code: Byte, data: seq<Byte>)

  predicate WellFormed(o: Option) { o.Pad? || (o.code != 0 && o.code != 255 && |o.data| <= 255) }

  predicate AllWellFormed(opts: seq<Option>) { forall o | o in opts :: WellFormed(o) }

  function EncodeOne(o: Option): seq<Byte>
    requires WellFormed(o)
  {
    if o.Pad? then [0] else [o.code, |o.data|] + o.data
  }

  function Encode(opts: seq<Option>): seq<Byte>
    requires AllWellFormed(opts)
  {
    if opts == [] then [] else EncodeOne(opts[0]) + Encode(opts[1..])
  }

  /** The value of the last option 53 of length one, or 0. */
  function LastType(opts: seq<Option>): Byte {
    if opts == [] then 0
    else
      var o := opts[|opts| - 1];
      if o.Tlv? && o.code == 53 && |o.data| == 1 then o.data[0] else LastType(opts[..|opts| - 1])
  }

  /** The value of the last option 50 of length four, or 0. */
  function LastRequested(opts: seq<Option>): Addr {
    if opts == [] then 0
    else
      var o := opts[|opts| - 1];
      if o.Tlv? && o.code == 50 && |o.data| == 4 then Get32(o.data, 0) else LastRequested(opts[..|opts| - 1])
  }

  /** Where the options stop: the end of the message, an end option, or an option cut short. */
  predicate Stops(tail: seq<Byte>) {
    || tail == [] || tail[0] == 255
    || (tail[0] != 0 && (|tail| == 1 || |tail| < 2 + tail[1] as nat))
  }

  // ----- The scan inverts the encoding -----

  function NoteOption(found: Found, o: Option): Found {
    if o.Pad? then found else Note(found, o.code, o.data)
  }

  function NoteAll(found: Found, opts: seq<Option>): Found {
    if opts == [] then found else NoteOption(NoteAll(found, opts[..|opts| - 1]), opts[|opts| - 1])
  }

  lemma {:induction false} NoteAllIsLast(opts: seq<Option>)
    ensures NoteAll(NOTHING, opts) == Found(LastType(opts), LastRequested(opts))
  {
    if opts != [] {
      NoteAllIsLast(opts[..|opts| - 1]);
    }
  }

  lemma {:induction false} NoteAllFromFront(found: Found, opts: seq<Option>)
    requires opts != []
    ensures NoteAll(found, opts) == NoteAll(NoteOption(found, opts[0]), opts[1..])
  {
    if |opts| > 1 {
      NoteAllFromFront(found, opts[..|opts| - 1]);
      assert opts[..|opts| - 1][1..] == opts[1..][..|opts| - 2];
    } else {
      assert opts[..0] == [] && opts[1..] == [];
    }
  }

  lemma {:induction false} ScanReads(opts: seq<Option>, tail: seq<Byte>, past: Byte, found: Found)
    requires AllWellFormed(opts) && Stops(tail)
    ensures Scan(Encode(opts) + tail, past, found) == NoteAll(found, opts)
    decreases |opts|
  {
    if opts == [] {
      assert Encode(opts) + tail == tail;
    } else {
      var o := opts[0];
      EncodeCons(opts, tail);
      ScanOne(o, Encode(opts[1..]) + tail, past, found);
      ScanReads(opts[1..], tail, past, NoteOption(found, o));
      NoteAllFromFront(found, opts);
    }
  }

  lemma EncodeCons(opts: seq<Option>, tail: seq<Byte>)
    requires AllWellFormed(opts) && opts != []
    ensures Encode(opts) + tail == EncodeOne(opts[0]) + (Encode(opts[1..]) + tail)
  {
  }

  lemma ScanOne(o: Option, rest: seq<Byte>, past: Byte, found: Found)
    requires WellFormed(o)
    ensures Scan(EncodeOne(o) + rest, past, found) == Scan(rest, past, NoteOption(found, o))
  {
    var msg := EncodeOne(o) + rest;
    if o.Pad? {
      assert msg[1..] == rest;
    } else {
      assert msg[2..2 + |o.data|] == o.data && msg[2 + |o.data|..] == rest;
    }
  }

  /** For any options, ended by an end option, by the message or by a cut, the scan returns the last
      well-formed message type and requested address, whatever memory holds behind the message. */
  lemma ScanInvertsEncode(opts: seq<Option>, tail: seq<Byte>, past: Byte)
    requires AllWellFormed(opts) && Stops(tail)
    ensures Scan(Encode(opts) + tail, past, NOTHING) == Found(LastType(opts), LastRequested(opts))
  {
    ScanReads(opts, tail, past, NOTHING);
    NoteAllIsLast(opts);
  }

  lemma FirstOption(msg: seq<Byte>) returns (o: Option, n: nat)
    requires !Stops(msg)
    ensures WellFormed(o) && 0 < n <= |msg| && msg[..n] == EncodeOne(o)
  {
    o := if msg[0] == PAD then Pad else Tlv(msg[0], msg[2..2 + msg[1]]);
    n := |EncodeOne(o)|;
  }

  /** And every byte string is such a message: some options, then a place where they stop. */
  lemma {:induction false} EveryMessageParses(msg: seq<Byte>) returns (opts: seq<Option>, tail: seq<Byte>)
    ensures AllWellFormed(opts) && Stops(tail) && msg == Encode(opts) + tail
    decreases |msg|
  {
    if Stops(msg) {
      opts, tail := [], msg;
    } else {
      var o, n := FirstOption(msg);
      var rest;
      rest, tail := EveryMessageParses(msg[n..]);
      opts := [o] + rest;
      assert opts[1..] == rest;
      assert msg == msg[..n] + msg[n..];
      EncodeCons(opts, tail);
    }
  }

  /** So the scan depends on no byte past the end, for any message at all. */
  lemma ScanIgnoresPast(msg: seq<Byte>, past: Byte, other: Byte)
    ensures Scan(msg, past, NOTHING) == Scan(msg, other, NOTHING)
  {
    var opts, tail := EveryMessageParses(msg);
    ScanInvertsEncode(opts, tail, past);
    ScanInvertsEncode(opts, tail, other);
  }

  lemma SliceOfSlice(s: seq<Byte>, a: nat, b: nat, i: nat, j: nat)
    requires a <= b <= |s| && i <= j <= b - a
    ensures s[a..b][i..j] == s[a + i..a + j]
  {
    forall k | 0 <= k < j - i
      ensures s[a..b][i..j][k] == s[a + i..a + j][k]
    {
    }
  }

  /** One step of the scan, in terms of positions in a buffer. */
  lemma ScanAt(data: seq<Byte>, opt: nat, end: nat, past: Byte, len: nat, found: Found)
    requires opt < end <= |data| && data[opt] != END
    requires data[opt] != PAD ==> len == if opt + 1 < end then data[opt + 1] else past
    ensures data[opt] == PAD ==> Scan(data[opt..end], past, found) == Scan(data[opt + 1..end], past, found)
    ensures data[opt] != PAD && opt + 2 + len > end ==> Scan(data[opt..end], past, found) == found
    ensures data[opt] != PAD && opt + 2 + len <= end ==>
              Scan(data[opt..end], past, found)
              == Scan(data[opt + 2 + len..end], past, Note(found, data[opt], data[opt + 2..opt + 2 + len]))
  {
    var msg := data[opt..end];
    if data[opt] == PAD {
      SliceOfSlice(data, opt, end, 1, end - opt);
    } else if opt + 2 + len <= end {
      SliceOfSlice(data, opt, end, 2, 2 + len);
      SliceOfSlice(data, opt, end, 2 + len, end - opt);
    }
  }

  /** The scan of data[opt..end]. */
  function ScanFrom(data: seq<Byte>, opt: nat, end: nat, past: Byte, found: Found): Found
    requires opt <= end <= |data|
  {
    Scan(data[opt..end], past, found)
  }

  method ReadOption(data: array<Byte>, opt: nat, len: nat, found: Found) returns (r: Found)
    requires opt + 2 + len <= data.Length
    ensures r == Note(found, data[opt], data[..][opt + 2..opt + 2 + len])
  {
    r := found;
    if data[opt] == MESSAGE_TYPE && len == 1 {
      r := r.(msgType := data[opt + 2]);
    }
    if data[opt] == REQUESTED_IP && len == 4 {
      r := r.(requested := Get32(data[..][opt + 2..opt + 6], 0));
    }
  }

  /** One round of the scan loop. A load of the length byte behind the buffer gives `beyond`. */
  method NextOption(data: array<Byte>, opt: nat, end: nat, beyond: Byte, found: Found, ghost past: Byte)
      returns (more: bool, next: nat, r: Found)
    requires opt < end <= data.Length && data[opt] != END
    requires past == if end < data.Length then data[end] else beyond
    ensures more ==> opt < next <= end
                     && ScanFrom(data[..], opt, end, past, found) == ScanFrom(data[..], next, end, past, r)
    ensures !more ==> r == found == ScanFrom(data[..], opt, end, past, found)
  {
    var len := if opt + 1 < data.Length then data[opt + 1] else beyond;
    ScanAt(data[..], opt, end, past, len, found);
    if data[opt] == PAD {
      return true, opt + 1, found;
    }
    if opt + 2 + len > end {
      return false, opt, found;
    }
    r := ReadOption(data, opt, len, found);
    more, next := true, opt + 2 + len;
  }

  /** The scan loop over a buffer, from `start` to `end`; `beyond` is what a load behind the buffer gives. */
  method ScanOptions(data: array<Byte>, start: nat, end: nat, beyond: Byte) returns (found: Found)
    requires start <= end <= data.Length
    ensures forall past: Byte :: found == Scan(data[..][start..end], past, NOTHING)
  {
    ghost var all := data[..];
    ghost var past := if end < |all| then all[end] else beyond;
    found := NOTHING;
    var opt, more := start, true;
    while more && opt < end && data[opt] != END
      invariant start <= opt <= end && all == data[..]
      invariant ScanFrom(all, start, end, past, NOTHING) == if more then ScanFrom(all, opt, end, past, found) else found
      decreases more, end - opt
    {
      var next;
      more, next, found := NextOption(data, opt, end, beyond, found, past);
      if more {
        opt := next;
      }
    }
    forall other: Byte
      ensures found == Scan(all[start..end], other, NOTHING)
    {
      ScanIgnoresPast(all[start..end], past, other);
    }
  }
}
