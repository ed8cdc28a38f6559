/** Sending: the IP header is filled into the buffer, two nested checksums are stored and both are verified. */
module IPSend {
  import opened Checksums

  const LEN_IPHDR := 20

  /** The header of a connection. Multi-byte fields are in host order, as they lie in memory. */
  datatype IPHeader = IPHeader(
    versionIhl: Byte, tos: Byte, ident: Word, fragOff: Word, ttl: Byte, protocol: Byte, check: Word,
    saddrLow: Word, saddrHigh: Word, daddrLow: Word, daddrHigh: Word)

  /** What became of the packet: handed to the Ethernet layer, or the process ended over a failed verification. */
  datatype Outcome = Sent | FatalIP | FatalTCP

  class SkBuff {
    const Buffer: array<Byte>
    var NetworkIndex: nat
    var MacIndex: nat
    var DataEnd: nat
    var PayloadLen: Word
    /** Where in Buffer the transport checksum lies. */
    var CheckPotioner: nat

    constructor (buffer: array<Byte>, networkIndex: nat, dataEnd: nat, payloadLen: Word, check: nat)
      ensures Buffer == buffer && NetworkIndex == networkIndex && DataEnd == dataEnd
      ensures PayloadLen == payloadLen && CheckPotioner == check && MacIndex == 0
    {
      Buffer, NetworkIndex, MacIndex, DataEnd, PayloadLen, CheckPotioner := buffer, networkIndex, 0, dataEnd, payloadLen, check;
    }

    /** The slices Send takes of the buffer exist. */
    ghost predicate InBounds()
      reads this
    {
      && NetworkIndex + LEN_IPHDR < 0x1_0000 && NetworkIndex + LEN_IPHDR <= Buffer.Length
      && NetworkIndex <= DataEnd <= Buffer.Length && CheckPotioner + 1 < Buffer.Length
    }
  }

  /** The twenty header bytes, before the header checksum is computed. */
  ghost function HeaderBytes(h: IPHeader, payloadLen: Word): (b: seq<Byte>)
    ensures |b| == LEN_IPHDR
    ensures b[10] == h.check % 0x100 && b[11] == h.check / 0x100
  {
    var total: Word := (payloadLen as int + LEN_IPHDR) % 0x1_0000;
    [h.versionIhl, h.tos, total / 0x100, total % 0x100,
     h.ident % 0x100, h.ident / 0x100, h.fragOff % 0x100, h.fragOff / 0x100,
     h.ttl, h.protocol, h.check % 0x100, h.check / 0x100] + Addresses(h)
  }

  /** The source and the destination address. */
  ghost function Addresses(h: IPHeader): (b: seq<Byte>)
    ensures |b| == 8
  {
    [h.saddrLow % 0x100, h.saddrLow / 0x100, h.saddrHigh % 0x100, h.saddrHigh / 0x100,
     h.daddrLow % 0x100, h.daddrLow / 0x100, h.daddrHigh % 0x100, h.daddrHigh / 0x100]
  }

  /** buf with bs written from position i on. */
  ghost function Spliced(buf: seq<Byte>, i: nat, bs: seq<Byte>): (r: seq<Byte>)
    requires i + |bs| <= |buf|
    ensures |r| == |buf|
  {
    buf[..i] + bs + buf[i + |bs|..]
  }

  method PutWord(a: array<Byte>, i: nat, w: Word)
    requires i + 1 < a.Length
    modifies a
    ensures a[..] == old(a[..])[i := w % 0x100][i + 1 := w / 0x100]
  {
    a[i] := w % 0x100;
    a[i + 1] := w / 0x100;
  }

  /** A word converted to network order and stored in host order. */
  method PutNetworkWord(a: array<Byte>, i: nat, w: Word)
    requires i + 1 < a.Length
    modifies a
    ensures a[..] == Filled(old(a[..]), i, w)
  {
    StoredBigEndian(w);
    PutWord(a, i, Htons(w));
  }

  /** The header, then its checksum big-endian at its place, then the checksum of everything from it to the end. */
  ghost function WithHeader(buf: seq<Byte>, n: nat, h: IPHeader, payloadLen: Word): (r: seq<Byte>)
    requires n + LEN_IPHDR <= |buf|
    ensures |r| == |buf|
  {
    Spliced(buf, n, HeaderBytes(h, payloadLen))
  }

  ghost function HeaderFilled(buf: seq<Byte>, n: nat): (r: seq<Byte>)
    requires n + LEN_IPHDR <= |buf|
    ensures |r| == |buf|
  {
    Filled(buf, n + 10, ChecksumOf(buf[n..n + LEN_IPHDR]))
  }

  ghost function AllFilled(buf: seq<Byte>, n: nat, end: nat, check: nat): (r: seq<Byte>)
    requires n <= end <= |buf| && check + 1 < |buf|
    ensures |r| == |buf|
  {
    Filled(buf, check, ChecksumOf(buf[n..end]))
  }

  ghost function SentBuffer(buf: seq<Byte>, n: nat, end: nat, check: nat, h: IPHeader, payloadLen: Word): (r: seq<Byte>)
    requires n + LEN_IPHDR <= |buf| && n <= end <= |buf| && check + 1 < |buf|
    ensures |r| == |buf|
  {
    AllFilled(HeaderFilled(WithHeader(buf, n, h, payloadLen), n), n, end, check)
  }

  ghost function OutcomeOf(sent: seq<Byte>, n: nat, end: nat): Outcome
    requires n + LEN_IPHDR <= |sent| && n <= end <= |sent|
  {
    if ChecksumOf(sent[n..n + LEN_IPHDR]) != 0 then FatalIP
    else if ChecksumOf(sent[n..end]) != 0 then FatalTCP
    else Sent
  }

  /** v lies at i, unless the word at check, which is written later, covers it. */
  ghost predicate Lies(b: seq<Byte>, check: nat, i: nat, v: int)
    requires i < |b|
  {
    i == check || i == check + 1 || b[i] == v
  }

  /** The header lies at n as RFC 791 lays it out, the addresses low byte first as the connection holds them. */
  ghost predicate HeaderLies(b: seq<Byte>, check: nat, n: nat, h: IPHeader, payloadLen: Word)
    requires n + 20 <= |b|
  {
    var total := (payloadLen as int + 20) % 0x1_0000;
    var sum := ChecksumOf(HeaderBytes(h, payloadLen));
    && Lies(b, check, n, h.versionIhl) && Lies(b, check, n + 1, h.tos)
    && Lies(b, check, n + 2, total / 0x100) && Lies(b, check, n + 3, total % 0x100)
    && Lies(b, check, n + 4, h.ident % 0x100) && Lies(b, check, n + 5, h.ident / 0x100)
    && Lies(b, check, n + 6, h.fragOff % 0x100) && Lies(b, check, n + 7, h.fragOff / 0x100)
    && Lies(b, check, n + 8, h.ttl) && Lies(b, check, n + 9, h.protocol)
    && Lies(b, check, n + 10, sum / 0x100) && Lies(b, check, n + 11, sum % 0x100)
    && Lies(b, check, n + 12, h.saddrLow % 0x100) && Lies(b, check, n + 13, h.saddrLow / 0x100)
    && Lies(b, check, n + 14, h.saddrHigh % 0x100) && Lies(b, check, n + 15, h.saddrHigh / 0x100)
    && Lies(b, check, n + 16, h.daddrLow % 0x100) && Lies(b, check, n + 17, h.daddrLow / 0x100)
    && Lies(b, check, n + 18, h.daddrHigh % 0x100) && Lies(b, check, n + 19, h.daddrHigh / 0x100)
  }

  /** Outside the header and the word at check nothing was written. */
  ghost predicate NothingElse(was: seq<Byte>, b: seq<Byte>, check: nat, n: nat)
    requires |was| == |b|
  {
    forall i :: 0 <= i < |b| && !(n <= i < n + 20) && i != check && i != check + 1 ==> b[i] == was[i]
  }

  /** Byte by byte: the header, the transport checksum over it and the rest, and nothing else. */
  lemma SentBytes(buf: seq<Byte>, n: nat, end: nat, check: nat, h: IPHeader, payloadLen: Word)
    requires n + LEN_IPHDR <= |buf| && n <= end <= |buf| && check + 1 < |buf|
    ensures var b := SentBuffer(buf, n, end, check, h, payloadLen);
            && HeaderLies(b, check, n, h, payloadLen) && NothingElse(buf, b, check, n)
            && var sum := ChecksumOf(BeforeTransport(buf, n, h, payloadLen)[n..end]);
            b[check] == sum / 0x100 && b[check + 1] == sum % 0x100
  {
    hide ChecksumOf, HeaderBytes, HeaderLies;
    var b1, bytes := WithHeader(buf, n, h, payloadLen), HeaderBytes(h, payloadLen);
    assert b1[n..n + LEN_IPHDR] == bytes;
    LiesBytewise(SentBuffer(buf, n, end, check, h, payloadLen), check, n, h, payloadLen);
  }

  lemma LiesBytewise(b: seq<Byte>, check: nat, n: nat, h: IPHeader, payloadLen: Word)
    requires n + 20 <= |b|
    requires var bytes := Filled(HeaderBytes(h, payloadLen), 10, ChecksumOf(HeaderBytes(h, payloadLen)));
             forall j :: 0 <= j < 20 ==> Lies(b, check, n + j, bytes[j])
    ensures HeaderLies(b, check, n, h, payloadLen)
  {
    var f := Filled(HeaderBytes(h, payloadLen), 10, ChecksumOf(HeaderBytes(h, payloadLen)));
    FirstBytes(h, payloadLen);
    AddressBytes(h, payloadLen);
    hide Lies, HeaderBytes, Filled, ChecksumOf;
    assert Lies(b, check, n + 0, f[0]) && Lies(b, check, n + 1, f[1]) && Lies(b, check, n + 2, f[2]) && Lies(b, check, n + 3, f[3]);
    assert Lies(b, check, n + 4, f[4]) && Lies(b, check, n + 5, f[5]) && Lies(b, check, n + 6, f[6]) && Lies(b, check, n + 7, f[7]);
    assert Lies(b, check, n + 8, f[8]) && Lies(b, check, n + 9, f[9]) && Lies(b, check, n + 10, f[10]) && Lies(b, check, n + 11, f[11]);
    assert Lies(b, check, n + 12, f[12]) && Lies(b, check, n + 13, f[13]) && Lies(b, check, n + 14, f[14]) && Lies(b, check, n + 15, f[15]);
    assert Lies(b, check, n + 16, f[16]) && Lies(b, check, n + 17, f[17]) && Lies(b, check, n + 18, f[18]) && Lies(b, check, n + 19, f[19]);
  }

  lemma FirstBytes(h: IPHeader, payloadLen: Word)
    ensures var sum, total := ChecksumOf(HeaderBytes(h, payloadLen)), (payloadLen as int + 20) % 0x1_0000;
            var f := Filled(HeaderBytes(h, payloadLen), 10, sum);
            && f[0] == h.versionIhl && f[1] == h.tos && f[2] == total / 0x100 && f[3] == total % 0x100
            && f[4] == h.ident % 0x100 && f[5] == h.ident / 0x100 && f[6] == h.fragOff % 0x100 && f[7] == h.fragOff / 0x100
            && f[8] == h.ttl && f[9] == h.protocol && f[10] == sum / 0x100 && f[11] == sum % 0x100
  {
    hide ChecksumOf;
  }

  lemma AddressBytes(h: IPHeader, payloadLen: Word)
    ensures var f := Filled(HeaderBytes(h, payloadLen), 10, ChecksumOf(HeaderBytes(h, payloadLen)));
            && f[12] == h.saddrLow % 0x100 && f[13] == h.saddrLow / 0x100 && f[14] == h.saddrHigh % 0x100 && f[15] == h.saddrHigh / 0x100
            && f[16] == h.daddrLow % 0x100 && f[17] == h.daddrLow / 0x100 && f[18] == h.daddrHigh % 0x100 && f[19] == h.daddrHigh / 0x100
  {
    hide ChecksumOf;
  }

  method PutAddresses(a: array<Byte>, i: nat, h: IPHeader)
    requires i + 8 <= a.Length
    modifies a
    ensures a[..] == Spliced(old(a[..]), i, Addresses(h))
  {
    PutWord(a, i, h.saddrLow);
    PutWord(a, i + 2, h.saddrHigh);
    PutWord(a, i + 4, h.daddrLow);
    PutWord(a, i + 6, h.daddrHigh);
  }

  method FillHeader(a: array<Byte>, n: nat, h: IPHeader, payloadLen: Word)
    requires n + LEN_IPHDR <= a.Length
    modifies a
    ensures a[..] == WithHeader(old(a[..]), n, h, payloadLen)
  {
    hide WithHeader, HeaderBytes, Addresses;
    PutNetworkWord(a, n + 2, (payloadLen as int + LEN_IPHDR) % 0x1_0000);
    PutAddresses(a, n + 12, h);
    a[n + 9] := h.protocol;
    a[n] := h.versionIhl;
    a[n + 1] := h.tos;
    PutWord(a, n + 4, h.ident);
    PutWord(a, n + 6, h.fragOff);
    a[n + 8] := h.ttl;
    PutWord(a, n + 10, h.check);
    assert a[n + 12..n + LEN_IPHDR] == Addresses(h);
    HeaderWritten(old(a[..]), a[..], n, h, payloadLen);
  }

  lemma HeaderWritten(was: seq<Byte>, b: seq<Byte>, n: nat, h: IPHeader, payloadLen: Word)
    requires n + LEN_IPHDR <= |was| == |b| && b[..n] == was[..n] && b[n + LEN_IPHDR..] == was[n + LEN_IPHDR..]
    requires var total := (payloadLen as int + LEN_IPHDR) % 0x1_0000;
             b[n] == h.versionIhl && b[n + 1] == h.tos && b[n + 2] == total / 0x100 && b[n + 3] == total % 0x100
    requires b[n + 4] == h.ident % 0x100 && b[n + 5] == h.ident / 0x100
    requires b[n + 6] == h.fragOff % 0x100 && b[n + 7] == h.fragOff / 0x100 && b[n + 8] == h.ttl && b[n + 9] == h.protocol
    requires b[n + 10] == h.check % 0x100 && b[n + 11] == h.check / 0x100 && b[n + 12..n + LEN_IPHDR] == Addresses(h)
    ensures b == WithHeader(was, n, h, payloadLen)
  {
    assert b[n..n + LEN_IPHDR] == b[n..n + 12] + b[n + 12..n + LEN_IPHDR];
    assert b[n..n + LEN_IPHDR] == HeaderBytes(h, payloadLen);
    hide HeaderBytes, Addresses;
    assert b == b[..n] + b[n..n + LEN_IPHDR] + b[n + LEN_IPHDR..];
  }

  method Send(skbuf: SkBuff, header: IPHeader) returns (outcome: Outcome)
    requires skbuf.InBounds()
    modifies skbuf.Buffer, skbuf`MacIndex
    ensures skbuf.Buffer[..] == SentBuffer(old(skbuf.Buffer[..]), skbuf.NetworkIndex, skbuf.DataEnd, skbuf.CheckPotioner, header, skbuf.PayloadLen)
    ensures HeaderLies(skbuf.Buffer[..], skbuf.CheckPotioner, skbuf.NetworkIndex, header, skbuf.PayloadLen)
    ensures NothingElse(old(skbuf.Buffer[..]), skbuf.Buffer[..], skbuf.CheckPotioner, skbuf.NetworkIndex)
    ensures outcome == OutcomeOf(skbuf.Buffer[..], skbuf.NetworkIndex, skbuf.DataEnd) && skbuf.MacIndex == 0
  {
    hide HeaderLies, NothingElse;
    hide ChecksumOf, Filled, WithHeader, SentBuffer, OutcomeOf, HeaderFilled, AllFilled;
    var a, n := skbuf.Buffer, skbuf.NetworkIndex;
    Bounds(skbuf);
    FillHeader(a, n, header, skbuf.PayloadLen);
    assert a[n..n + LEN_IPHDR] == a[..][n..n + LEN_IPHDR];
    var check, sums := Checksum(a[n..n + LEN_IPHDR]);
    PutNetworkWord(a, n + 10, check);
    assert a[n..skbuf.DataEnd] == a[..][n..skbuf.DataEnd];
    check, sums := Checksum(a[n..skbuf.DataEnd]);
    PutNetworkWord(a, skbuf.CheckPotioner, check);
    skbuf.MacIndex := 0;
    SentBytes(old(a[..]), n, skbuf.DataEnd, skbuf.CheckPotioner, header, skbuf.PayloadLen);
    SentMeaning(old(a[..]), n, skbuf.DataEnd, skbuf.CheckPotioner, header, skbuf.PayloadLen);
    assert a[n..n + LEN_IPHDR] == a[..][n..n + LEN_IPHDR] && a[n..skbuf.DataEnd] == a[..][n..skbuf.DataEnd];
    var verified := VerifyChecksum(a[n..n + LEN_IPHDR]);
    if !verified {
      return FatalIP;
    }
    verified := VerifyChecksum(a[n..skbuf.DataEnd]);
    if !verified {
      return FatalTCP;
    }
    return Sent;
  }

  lemma Bounds(skbuf: SkBuff)
    requires skbuf.InBounds()
    ensures skbuf.NetworkIndex + LEN_IPHDR <= skbuf.Buffer.Length && skbuf.NetworkIndex <= skbuf.DataEnd <= skbuf.Buffer.Length
    ensures skbuf.CheckPotioner + 1 < skbuf.Buffer.Length
  {}

  lemma SentMeaning(buf: seq<Byte>, n: nat, end: nat, check: nat, h: IPHeader, payloadLen: Word)
    requires n + LEN_IPHDR <= |buf| && n <= end <= |buf| && check + 1 < |buf|
    ensures var b := WithHeader(buf, n, h, payloadLen);
            var c := Filled(b, n + 10, ChecksumOf(b[n..n + LEN_IPHDR]));
            var d := Filled(c, check, ChecksumOf(c[n..end]));
            && d == SentBuffer(buf, n, end, check, h, payloadLen)
            && OutcomeOf(d, n, end) == (if ChecksumOf(d[n..n + LEN_IPHDR]) != 0 then FatalIP
                                       else if ChecksumOf(d[n..end]) != 0 then FatalTCP else Sent)
  {}

  // ---------- when a packet goes out ----------

  /** The buffer as Send leaves it before the second checksum. */
  ghost function BeforeTransport(buf: seq<Byte>, n: nat, h: IPHeader, payloadLen: Word): (r: seq<Byte>)
    requires n + LEN_IPHDR <= |buf|
    ensures |r| == |buf|
  {
    HeaderFilled(WithHeader(buf, n, h, payloadLen), n)
  }

  /** The transport checksum word lies beyond the IP header, at an even distance, and is zero. */
  ghost predicate TransportReady(buf: seq<Byte>, n: nat, end: nat, check: nat) {
    && n + LEN_IPHDR <= check && check + 1 < end <= |buf| && end - n <= 0xFFFF && (check - n) % 2 == 0
    && buf[check] == 0 && buf[check + 1] == 0
  }

  lemma FilledInside(buf: seq<Byte>, i: nat, lo: nat, hi: nat, w: Word)
    requires lo <= i && i + 1 < hi <= |buf|
    ensures Filled(buf, i, w)[lo..hi] == Filled(buf[lo..hi], i - lo, w)
  {}

  lemma FilledOutside(buf: seq<Byte>, i: nat, lo: nat, hi: nat, w: Word)
    requires lo <= hi <= i && i + 1 < |buf|
    ensures Filled(buf, i, w)[lo..hi] == buf[lo..hi]
  {}

  /** The transport checksum never touches the IP header bytes that are verified. */
  lemma HeaderUntouched(buf: seq<Byte>, n: nat, end: nat, check: nat, h: IPHeader, payloadLen: Word)
    requires n + LEN_IPHDR <= |buf| && TransportReady(buf, n, end, check)
    ensures SentBuffer(buf, n, end, check, h, payloadLen)[n..n + LEN_IPHDR]
            == Filled(HeaderBytes(h, payloadLen), 10, ChecksumOf(HeaderBytes(h, payloadLen)))
  {
    var b1 := WithHeader(buf, n, h, payloadLen);
    var b2 := HeaderFilled(b1, n);
    assert b1[n..n + LEN_IPHDR] == HeaderBytes(h, payloadLen);
    FilledInside(b1, n + 10, n, n + LEN_IPHDR, ChecksumOf(HeaderBytes(h, payloadLen)));
    FilledOutside(b2, check, n, n + LEN_IPHDR, ChecksumOf(b2[n..end]));
  }

  /** With both checksum fields zero, the packet goes out exactly when neither computation needs a second fold. */
  lemma SentExactly(buf: seq<Byte>, n: nat, end: nat, check: nat, h: IPHeader, payloadLen: Word)
    requires n + LEN_IPHDR <= |buf| && TransportReady(buf, n, end, check) && h.check == 0
    ensures var r := OutcomeOf(SentBuffer(buf, n, end, check, h, payloadLen), n, end);
            var ip, tcp := WordSum(HeaderBytes(h, payloadLen)), WordSum(BeforeTransport(buf, n, h, payloadLen)[n..end]);
            var ipFolds := ip / 0x1_0000 + ip % 0x1_0000 <= 0xFFFF;
            var tcpFolds := tcp / 0x1_0000 + tcp % 0x1_0000 <= 0xFFFF;
            && (r == Sent <==> ipFolds && tcpFolds)
            && (r == FatalIP <==> !ipFolds)
            && (r == FatalTCP <==> ipFolds && !tcpFolds)
  {
    var bytes := HeaderBytes(h, payloadLen);
    HeaderUntouched(buf, n, end, check, h, payloadLen);
    FillThenVerify(bytes, 10);
    var b2 := BeforeTransport(buf, n, h, payloadLen);
    TransportStillZero(buf, n, end, check, h, payloadLen);
    FilledInside(b2, check, n, end, ChecksumOf(b2[n..end]));
    FillThenVerify(b2[n..end], check - n);
  }

  lemma TransportStillZero(buf: seq<Byte>, n: nat, end: nat, check: nat, h: IPHeader, payloadLen: Word)
    requires n + LEN_IPHDR <= |buf| && TransportReady(buf, n, end, check)
    ensures var b := BeforeTransport(buf, n, h, payloadLen)[n..end];
            |b| == end - n && b[check - n] == 0 && b[check - n + 1] == 0
  {
    var b1 := WithHeader(buf, n, h, payloadLen);
    assert b1[check] == buf[check] && b1[check + 1] == buf[check + 1];
  }
}
