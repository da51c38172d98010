/** The report list of a ting message, written into a byte buffer in place and read back report by report. */
module TingMessage {

  type byte = n: nat | n < 0x100

  const MIN_LENGTH: nat := 12     // header, sent seconds, sent microseconds
  const REPORT_OVERHEAD: nat := 24
  const TING_MSG_MAX: nat := 1400
  const NO_RTT: nat := 0xffff_ffff

  /** A report whose address is IPv4 (4 bytes) or IPv6 (16 bytes); the other fields as wide as on the wire. */
  datatype WireReport = WireReport(address: seq<byte>, port: nat, roundId: byte,
                                   refSec: nat, refUsec: nat, obsSec: nat, obsUsec: nat, rtt: nat)
  {
    predicate Fits() {
      && (|address| == 4 || |address| == 16)
      && port < 0x1_0000
      && refSec < 0x1_0000_0000 && refUsec < 0x1_0000_0000 && obsSec < 0x1_0000_0000 && obsUsec < 0x1_0000_0000
      && rtt < 0x1_0000_0000
    }

    function Words(): nat { 6 + |address| / 4 }
  }

  function Uint16(value: nat): (s: seq<byte>)
    requires value < 0x1_0000
    ensures |s| == 2
  {
    [value / 0x100, value % 0x100]
  }

  function Uint32(value: nat): (s: seq<byte>)
    requires value < 0x1_0000_0000
    ensures |s| == 4
  {
    [value / 0x100_0000, value / 0x1_0000 % 0x100, value / 0x100 % 0x100, value % 0x100]
  }

  function FromUint16(s: seq<byte>): nat
    requires |s| == 2
  {
    0x100 * (s[0] as nat) + s[1]
  }

  function FromUint32(s: seq<byte>): nat
    requires |s| == 4
  {
    0x100_0000 * (s[0] as nat) + 0x1_0000 * (s[1] as nat) + 0x100 * (s[2] as nat) + s[3]
  }

  lemma Uint32RoundTrip(value: nat)
    requires value < 0x1_0000_0000
    ensures FromUint32(Uint32(value)) == value
  {
    var b3, b2, b1 := value / 0x100_0000, value / 0x1_0000, value / 0x100;
    assert b2 / 0x100 == b3 && b1 / 0x100 == b2;
  }

  /** The wire form of a report: length in words, round id, port, address, the two times and the round-trip time. */
  function Encode(r: WireReport): (s: seq<byte>)
    requires r.Fits()
    ensures |s| == 4 * r.Words() == |r.address| + REPORT_OVERHEAD
    ensures s[0] == r.Words()
  {
    [r.Words(), r.roundId] + Uint16(r.port) + r.address +
    Uint32(r.refSec) + Uint32(r.refUsec) + Uint32(r.obsSec) + Uint32(r.obsUsec) + Uint32(r.rtt)
  }

  function EncodeAll(rs: seq<WireReport>): seq<byte>
    requires forall r | r in rs :: r.Fits()
  {
    if rs == [] then [] else EncodeAll(rs[..|rs| - 1]) + Encode(rs[|rs| - 1])
  }

  lemma EncodeOneMore(rs: seq<WireReport>, r: WireReport)
    requires r.Fits() && forall x | x in rs :: x.Fits()
    ensures forall x | x in rs + [r] :: x.Fits()
    ensures EncodeAll(rs + [r]) == EncodeAll(rs) + Encode(r)
  {
    hide Encode, WireReport.Fits;
    assert (rs + [r])[..|rs|] == rs;
  }

  /** Where the i-th report starts, counted from the first. */
  function Offset(rs: seq<WireReport>, i: nat): nat
    requires i <= |rs|
  {
    if i == 0 then 0 else Offset(rs, i - 1) + |rs[i - 1].address| + REPORT_OVERHEAD
  }

  lemma {:induction false} LengthOfAll(rs: seq<WireReport>)
    requires forall r | r in rs :: r.Fits()
    ensures |EncodeAll(rs)| == Offset(rs, |rs|)
  {
    hide Encode;
    if rs != [] {
      var front := rs[..|rs| - 1];
      LengthOfAll(front);
      OffsetOfFront(rs, front, |front|);
    }
  }

  lemma {:induction false} ReportAt(rs: seq<WireReport>, i: nat)
    requires i < |rs| && forall r | r in rs :: r.Fits()
    ensures Offset(rs, i + 1) <= |EncodeAll(rs)| && rs[i].Fits()
    ensures EncodeAll(rs)[Offset(rs, i)..Offset(rs, i + 1)] == Encode(rs[i])
  {
    hide Encode;
    var n := |rs|;
    var front := rs[..n - 1];
    LengthOfAll(front);
    OffsetOfFront(rs, front, n - 1);
    assert EncodeAll(rs) == EncodeAll(front) + Encode(rs[n - 1]);
    if i < n - 1 {
      OffsetOfFront(rs, front, i);
      OffsetOfFront(rs, front, i + 1);
      ReportAt(front, i);
      hide Offset, EncodeAll;
      assert EncodeAll(rs)[Offset(rs, i)..Offset(rs, i + 1)] == EncodeAll(front)[Offset(rs, i)..Offset(rs, i + 1)];
    }
  }

  lemma {:induction false} OffsetOfFront(rs: seq<WireReport>, front: seq<WireReport>, i: nat)
    requires rs != [] && front == rs[..|rs| - 1] && i <= |front|
    ensures Offset(front, i) == Offset(rs, i)
  {
    if i > 0 {
      OffsetOfFront(rs, front, i - 1);
    }
  }

  /** The length in bytes that a report's first byte announces. */
  function Bytes(words: byte): nat {
    4 * (words as nat)
  }

  lemma SliceOfSlice(s: seq<byte>, from: nat, to: nat, a: nat, b: nat)
    requires from <= to <= |s| && a < b <= to - from
    ensures s[from..to][a..b] == s[from + a..from + b]
    ensures s[from..to][a..b][0] == s[from + a]
  {
    forall k | 0 <= k < b - a ensures s[from..to][a..b][k] == s[from + a..from + b][k] {
    }
  }

  datatype Cursor = AtStart | At(position: nat)

  class Message {
    const buffer: array<byte>
    var length: nat

    ghost predicate Valid()
      reads this
    {
      MIN_LENGTH <= length <= buffer.Length
    }

    /** The message carries exactly these reports. */
    ghost predicate Carries(rs: seq<WireReport>)
      reads this, buffer
    {
      && Valid() && (forall r | r in rs :: r.Fits())
      && buffer[MIN_LENGTH..length] == EncodeAll(rs)
    }

    constructor (size: nat)
      requires size >= MIN_LENGTH
      ensures Carries([]) && buffer.Length == size && fresh(buffer)
    {
      buffer, length := new byte[size], MIN_LENGTH;
    }

    /** Writes bytes right after what has been written from start on. */
    method Put(start: nat, at: nat, bytes: seq<byte>)
      requires start <= at && at + |bytes| <= buffer.Length
      modifies buffer
      ensures buffer[..start] == old(buffer[..start])
      ensures buffer[start..at + |bytes|] == old(buffer[start..at]) + bytes
    {
      for i := 0 to |bytes|
        invariant buffer[..at] == old(buffer[..at])
        invariant buffer[at..at + i] == bytes[..i]
      {
        buffer[at + i] := bytes[i];
      }
      assert buffer[..start] == buffer[..at][..start];
      assert buffer[start..at + |bytes|] == buffer[..at][start..] + buffer[at..at + |bytes|];
    }

    /** The report's first word: no length until the address is known, then the round id, the port and the length. */
    method WriteHead(at: nat, r: WireReport)
      requires r.Fits() && at + 4 <= buffer.Length
      modifies buffer
      ensures buffer[..at] == old(buffer[..at])
      ensures buffer[at..at + 4] == [r.Words(), r.roundId] + Uint16(r.port)
    {
      hide Uint16;
      buffer[at] := 0;
      buffer[at + 1] := r.roundId;
      assert buffer[at..at + 2] == [0, r.roundId];
      Put(at, at + 2, Uint16(r.port));
      ghost var head := buffer[at..at + 4];
      assert forall i | 0 <= i < 4 :: buffer[at + i] == head[i];
      buffer[at] := r.Words();
      assert buffer[at..at + 4] == [r.Words()] + head[1..];
    }

    /** Puts a finished report of r at the given place, field by field, and leaves what comes before it alone. */
    method WriteReport(at: nat, r: WireReport)
      requires r.Fits() && at + |r.address| + REPORT_OVERHEAD <= buffer.Length
      modifies buffer
      ensures buffer[..at] == old(buffer[..at])
      ensures buffer[at..at + |r.address| + REPORT_OVERHEAD] == Encode(r)
    {
      hide Uint16, Uint32;
      WriteHead(at, r);
      Put(at, at + 4, r.address);
      var times := at + 4 + |r.address|;
      Put(at, times, Uint32(r.refSec));
      Put(at, times + 4, Uint32(r.refUsec));
      Put(at, times + 8, Uint32(r.obsSec));
      Put(at, times + 12, Uint32(r.obsUsec));
      Put(at, times + 16, Uint32(r.rtt));
    }

    /** Adds a report if there is room for it; a refused report changes nothing. */
    method AppendReport(r: WireReport, ghost rs: seq<WireReport>) returns (added: bool)
      requires Carries(rs) && r.Fits()
      modifies this`length, buffer
      ensures added <==> old(length) + |r.address| + REPORT_OVERHEAD <= buffer.Length
      ensures added ==> Carries(rs + [r])
      ensures !added ==> Carries(rs) && length == old(length) && buffer[..] == old(buffer[..])
      ensures buffer[..MIN_LENGTH] == old(buffer[..MIN_LENGTH])
    {
      hide EncodeAll, Encode, WireReport.Fits;
      var reportLength := |r.address| + REPORT_OVERHEAD;
      var bufferSpace := buffer.Length - length;
      if reportLength > bufferSpace {
        return false;
      }
      var at := length;
      WriteReport(at, r);
      length := length + reportLength;
      assert buffer[MIN_LENGTH..at] == buffer[..at][MIN_LENGTH..];
      assert buffer[MIN_LENGTH..length] == buffer[MIN_LENGTH..at] + buffer[at..length];
      assert buffer[..MIN_LENGTH] == buffer[..at][..MIN_LENGTH];
      EncodeOneMore(rs, r);
      added := true;
    }

    /** From a cursor that has read the first i reports of the message, moves on to the next one: there is one exactly
        when i is not all of them, and after the last the cursor is back at the start. Whatever the message holds, a
        report that is found lies inside it. */
    method GetNextReport(c: Cursor, ghost rs: seq<WireReport>, ghost i: nat) returns (next: Cursor, ok: bool)
      requires length <= buffer.Length && (c.At? ==> c.position < length)
      ensures Carries(rs) && i <= |rs| && HasRead(rs, i, c) ==>
        && (ok <==> i < |rs|)
        && (if ok then HasRead(rs, i + 1, next) else next == AtStart)
      ensures ok ==> next.At? && next.position < length && next.position + Bytes(buffer[next.position]) <= length
    {
      if Carries(rs) && i <= |rs| && HasRead(rs, i, c) {
        FindReport(rs, i);
        NextStandsAt(rs, i, c);
      }
      hide Carries, Offset, Encode;
      var position := if c.AtStart? then MIN_LENGTH else c.position + Bytes(buffer[c.position]);
      var space := if position < length then length - position else 0;
      if space == 0 {
        return AtStart, false;
      }
      next := At(position);
      ok := Bytes(buffer[position]) <= space;
    }

    /** Reads the fields of the report at the cursor; the port only of an IPv4 report. */
    method ReadReport(p: nat) returns (r: WireReport)
      requires p < buffer.Length && p + Bytes(buffer[p]) <= length <= buffer.Length &&
        (buffer[p] == 7 || buffer[p] == 10)
      ensures r == Decode(buffer[p..p + Bytes(buffer[p])])
    {
      var addressLength := 4 * (buffer[p] - 6);
      var times := 4 + addressLength;
      var q := p + times;
      DecodeAt(buffer[..], p);
      r := WireReport(buffer[p + 4..p + times], if addressLength == 4 then FromUint16(buffer[p + 2..p + 4]) else 0,
                      buffer[p + 1], FromUint32(buffer[q..q + 4]), FromUint32(buffer[q + 4..q + 8]),
                      FromUint32(buffer[q + 8..q + 12]), FromUint32(buffer[q + 12..q + 16]),
                      FromUint32(buffer[q + 16..q + 20]));
    }

    /** The loop over the reports of an arriving message yields what was appended, in order, and stops. */
    method ReadAll(ghost rs: seq<WireReport>) returns (reports: seq<WireReport>)
      requires Carries(rs)
      ensures |reports| == |rs| && forall i | 0 <= i < |rs| :: reports[i] == AsRead(rs[i])
    {
      hide *;
      NoneReadYet(rs);
      reports := [];
      var cursor, ok := GetNextReport(AtStart, rs, 0);
      while ok
        invariant |reports| <= |rs|
        invariant forall i | 0 <= i < |reports| :: reports[i] == AsRead(rs[i])
        invariant ok <==> |reports| < |rs|
        invariant ok ==> HasRead(rs, |reports| + 1, cursor)
        decreases |rs| - |reports|
      {
        ReportAtCursor(rs, |reports|, cursor);
        var report := ReadReport(cursor.position);
        reports := reports + [report];
        cursor, ok := GetNextReport(cursor, rs, |reports|);
      }
    }

    /** p is where the i-th report begins, or where the message ends if there is none. */
    ghost predicate StandsAt(rs: seq<WireReport>, i: nat, p: nat)
      requires i <= |rs|
      reads this, buffer
    {
      && p == MIN_LENGTH + Offset(rs, i) && length <= buffer.Length
      && if i == |rs| then p == length
         else rs[i].Fits() && p < length && (buffer[p] == 7 || buffer[p] == 10)
              && p + Bytes(buffer[p]) == MIN_LENGTH + Offset(rs, i + 1) <= length
              && buffer[p..p + Bytes(buffer[p])] == Encode(rs[i])
    }

    ghost predicate HasRead(rs: seq<WireReport>, i: nat, c: Cursor)
      requires i <= |rs|
      reads this, buffer
    {
      if i == 0 then c.AtStart? else c.At? && StandsAt(rs, i - 1, c.position)
    }

    lemma NoneReadYet(rs: seq<WireReport>)
      requires Carries(rs)
      ensures HasRead(rs, 0, AtStart) && length <= buffer.Length
    {
    }

    lemma ReportAtCursor(rs: seq<WireReport>, i: nat, c: Cursor)
      requires i < |rs| && HasRead(rs, i + 1, c)
      ensures c.At? && c.position < length <= buffer.Length
      ensures var p := c.position; p + Bytes(buffer[p]) <= length && (buffer[p] == 7 || buffer[p] == 10)
      ensures Decode(buffer[c.position..c.position + Bytes(buffer[c.position])]) == AsRead(rs[i])
    {
      hide Encode, Decode, AsRead, WireReport.Fits;
      DecodeEncode(rs[i]);
    }

    lemma NextStandsAt(rs: seq<WireReport>, i: nat, c: Cursor)
      requires Carries(rs) && i <= |rs| && HasRead(rs, i, c) && StandsAt(rs, i, MIN_LENGTH + Offset(rs, i))
      ensures c.At? ==> c.position < buffer.Length
      ensures StandsAt(rs, i, if c.AtStart? then MIN_LENGTH else c.position + Bytes(buffer[c.position]))
    {
      hide Encode;
    }

    lemma FindReport(rs: seq<WireReport>, i: nat)
      requires Carries(rs) && i <= |rs|
      ensures StandsAt(rs, i, MIN_LENGTH + Offset(rs, i))
      ensures i == 0 ==> Offset(rs, i) == 0
    {
      hide Encode, EncodeAll;
      FindInBytes(buffer[..], length, rs, i);
    }
  }

  lemma FindInBytes(all: seq<byte>, length: nat, rs: seq<WireReport>, i: nat)
    requires MIN_LENGTH <= length <= |all| && i <= |rs| && forall r | r in rs :: r.Fits()
    requires all[MIN_LENGTH..length] == EncodeAll(rs)
    ensures i == |rs| ==> MIN_LENGTH + Offset(rs, i) == length
    ensures i < |rs| ==> var p := MIN_LENGTH + Offset(rs, i); var q := p + 4 * rs[i].Words();
      rs[i].Fits() && q <= length && all[p] == rs[i].Words() && all[p..q] == Encode(rs[i])
    ensures i < |rs| ==> Offset(rs, i + 1) == Offset(rs, i) + 4 * rs[i].Words()
  {
    hide Encode, EncodeAll;
    LengthOfAll(rs);
    if i < |rs| {
      ReportAt(rs, i);
      SliceOfSlice(all, MIN_LENGTH, length, Offset(rs, i), Offset(rs, i + 1));
    }
  }

  function Decode(s: seq<byte>): WireReport
    requires |s| == 28 || |s| == 40
  {
    var t := |s| - 20;
    WireReport(s[4..t], if |s| == 28 then FromUint16(s[2..4]) else 0, s[1],
               FromUint32(s[t..t + 4]), FromUint32(s[t + 4..t + 8]), FromUint32(s[t + 8..t + 12]),
               FromUint32(s[t + 12..t + 16]), FromUint32(s[t + 16..t + 20]))
  }

  lemma DecodeAt(s: seq<byte>, p: nat)
    requires p < |s| && p + Bytes(s[p]) <= |s| && (s[p] == 7 || s[p] == 10)
    ensures var q := p + Bytes(s[p]) - 20;
            Decode(s[p..q + 20]) ==
            WireReport(s[p + 4..q], if s[p] == 7 then FromUint16(s[p + 2..p + 4]) else 0, s[p + 1],
                       FromUint32(s[q..q + 4]), FromUint32(s[q + 4..q + 8]), FromUint32(s[q + 8..q + 12]),
                       FromUint32(s[q + 12..q + 16]), FromUint32(s[q + 16..q + 20]))
  {
    hide FromUint32, FromUint16;
    var n := Bytes(s[p]);
    var t, end := n - 20, p + n;
    SliceOfSlice(s, p, end, t, t + 4);
    SliceOfSlice(s, p, end, t + 4, t + 8);
    SliceOfSlice(s, p, end, t + 8, t + 12);
    SliceOfSlice(s, p, end, t + 12, t + 16);
    SliceOfSlice(s, p, end, t + 16, t + 20);
    SliceOfSlice(s, p, end, 4, t);
    SliceOfSlice(s, p, end, 2, 4);
  }

  /** How a report comes back: an IPv6 one loses its port. */
  function AsRead(r: WireReport): WireReport {
    if |r.address| == 4 then r else r.(port := 0)
  }

  lemma Middle(a: seq<byte>, b: seq<byte>, c: seq<byte>)
    ensures (a + b + c)[|a|..|a| + |b|] == b
  {
  }

  lemma Uint16RoundTrip(value: nat)
    requires value < 0x1_0000
    ensures FromUint16(Uint16(value)) == value
  {
  }

  lemma DecodeEncode(r: WireReport)
    requires r.Fits()
    ensures Decode(Encode(r)) == AsRead(r)
  {
    hide Uint16, Uint32, FromUint16, FromUint32;
    var s := Encode(r);
    var t := |s| - 20;
    var head, port := [r.Words() as byte, r.roundId], Uint16(r.port);
    var e1, e2, e3, e4, e5 := Uint32(r.refSec), Uint32(r.refUsec), Uint32(r.obsSec), Uint32(r.obsUsec), Uint32(r.rtt);
    assert s[2..4] == port by {
      assert s == head + port + (r.address + e1 + e2 + e3 + e4 + e5);
      Middle(head, port, r.address + e1 + e2 + e3 + e4 + e5);
    }
    assert s[4..t] == r.address by {
      assert s == (head + port) + r.address + (e1 + e2 + e3 + e4 + e5);
      Middle(head + port, r.address, e1 + e2 + e3 + e4 + e5);
    }
    var front := head + port + r.address;
    TimeFields(front, e1, e2, e3, e4, e5);
    assert s == front + e1 + e2 + e3 + e4 + e5;
    Uint16RoundTrip(r.port);
    Uint32RoundTrip(r.refSec);
    Uint32RoundTrip(r.refUsec);
    Uint32RoundTrip(r.obsSec);
    Uint32RoundTrip(r.obsUsec);
    Uint32RoundTrip(r.rtt);
  }

  /** Where each field of a report lies, with the most significant byte of a number first. */
  lemma EncodeLayout(r: WireReport)
    requires r.Fits()
    ensures var s, t := Encode(r), 4 + |r.address|;
      && |s| == t + 20 && 4 * (s[0] as nat) == |s| && s[1] == r.roundId
      && 0x100 * (s[2] as nat) + s[3] == r.port && s[4..t] == r.address
      && BigEndian(s, t, r.refSec) && BigEndian(s, t + 4, r.refUsec)
      && BigEndian(s, t + 8, r.obsSec) && BigEndian(s, t + 12, r.obsUsec) && BigEndian(s, t + 16, r.rtt)
  {
    var s, t := Encode(r), 4 + |r.address|;
    assert s[4..t] == r.address;
    var front := [r.Words() as byte, r.roundId] + Uint16(r.port) + r.address;
    TimeFields(front, Uint32(r.refSec), Uint32(r.refUsec), Uint32(r.obsSec), Uint32(r.obsUsec), Uint32(r.rtt));
    assert s[2..4] == Uint16(r.port);
    hide Encode;
    Bytes4(s, t, r.refSec);
    Bytes4(s, t + 4, r.refUsec);
    Bytes4(s, t + 8, r.obsSec);
    Bytes4(s, t + 12, r.obsUsec);
    Bytes4(s, t + 16, r.rtt);
  }

  ghost predicate BigEndian(s: seq<byte>, at: nat, value: nat)
    requires at + 4 <= |s|
  {
    value == 0x100_0000 * (s[at] as nat) + 0x1_0000 * (s[at + 1] as nat) + 0x100 * (s[at + 2] as nat) + s[at + 3]
  }

  lemma Bytes4(s: seq<byte>, at: nat, value: nat)
    requires value < 0x1_0000_0000 && at + 4 <= |s| && s[at..at + 4] == Uint32(value)
    ensures BigEndian(s, at, value)
  {
    var b := s[at..at + 4];
    assert b[0] == s[at] && b[1] == s[at + 1] && b[2] == s[at + 2] && b[3] == s[at + 3];
    Uint32RoundTrip(value);
  }

  lemma TimeFields(front: seq<byte>, e1: seq<byte>, e2: seq<byte>, e3: seq<byte>, e4: seq<byte>, e5: seq<byte>)
    requires |e1| == |e2| == |e3| == |e4| == |e5| == 4
    ensures var s, t := front + e1 + e2 + e3 + e4 + e5, |front|;
      && s[t..t + 4] == e1 && s[t + 4..t + 8] == e2 && s[t + 8..t + 12] == e3
      && s[t + 12..t + 16] == e4 && s[t + 16..t + 20] == e5
  {
    var s := front + e1 + e2 + e3 + e4 + e5;
    assert s == front + e1 + (e2 + e3 + e4 + e5);
    Middle(front, e1, e2 + e3 + e4 + e5);
    assert s == (front + e1) + e2 + (e3 + e4 + e5);
    Middle(front + e1, e2, e3 + e4 + e5);
    assert s == (front + e1 + e2) + e3 + (e4 + e5);
    Middle(front + e1 + e2, e3, e4 + e5);
    Middle(front + e1 + e2 + e3, e4, e5);
    Middle(front + e1 + e2 + e3 + e4, e5, []);
  }

  /** A report comes back as it was written if and only if it is an IPv4 one or has port 0. */
  lemma RoundTripIff(r: WireReport)
    requires r.Fits()
    ensures Decode(Encode(r)) == r <==> |r.address| == 4 || r.port == 0
  {
    DecodeEncode(r);
  }

  /** The reports a session puts into one message always fit. */
  lemma {:induction false} TenReportsFit(rs: seq<WireReport>)
    requires |rs| <= 10 && forall r | r in rs :: r.Fits()
    ensures Offset(rs, |rs|) <= 40 * |rs| && MIN_LENGTH + Offset(rs, |rs|) <= TING_MSG_MAX
  {
    OffsetAtMost(rs, |rs|);
  }

  lemma {:induction false} OffsetAtMost(rs: seq<WireReport>, i: nat)
    requires i <= |rs| && forall r | r in rs :: r.Fits()
    ensures Offset(rs, i) <= 40 * i
  {
    if i > 0 {
      OffsetAtMost(rs, i - 1);
      assert rs[i - 1] in rs;
    }
  }

  // ----- the round-trip time field

  function SetRtt(seconds: real): nat
    requires seconds < 4294.0
  {
    if seconds >= 0.0 then (1000000.0 * seconds + 0.5).Floor else NO_RTT
  }

  function GetRtt(value: nat): real {
    if value != NO_RTT then value as real else -1.0
  }

  /** The field is written from seconds but read back as a count of microseconds, so it survives only as 0 or as no
      value. */
  lemma RttSurvivesIff(seconds: real)
    requires seconds < 4294.0
    ensures GetRtt(SetRtt(seconds)) == seconds <==> seconds == 0.0 || seconds == -1.0
    ensures seconds >= 0.0 ==> -0.5 <= GetRtt(SetRtt(seconds)) - 1000000.0 * seconds <= 0.5
  {
    if seconds >= 0.0 {
      var x := 1000000.0 * seconds + 0.5;
      assert x.Floor as real <= x < x.Floor as real + 1.0;
      assert SetRtt(seconds) < NO_RTT;
    }
  }
}
