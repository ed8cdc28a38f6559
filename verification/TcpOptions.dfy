/** The TCP option parser: a cursor loop over bytes, against a recursive reading of the option list. */
module TcpOptions {
  import opened Checksums

  const TCPOPT_EOL := 0
  const TCPOPT_NOP := 1
  const TCPOPT_MSS := 2
  const TCPOPT_WINDOW := 3
  const TCPOPT_SACK_PERM := 4
  const TCPOPT_SACK := 5
  const TCPOPT_TIMESTAMP := 8

  const TCPOLEN_MSS := 4
  const TCPOLEN_WINDOW := 3
  const TCPOLEN_SACK_PERM := 2
  const TCPOLEN_TIMESTAMP := 10
  const TCPOLEN_SACK_BASE := 2
  const TCPOLEN_SACK_PERBLOCK := 8

  /** The fields of TCPOptionsReceived that the parser reads or writes. */
  datatype Rx = Rx(
    rcv_tsval: int, rcv_tsecr: int, saw_tstamp: int, tstamp_ok: bool, dsack: bool, wscale_ok: bool,
    sack_ok: Byte, snd_wscale: Byte, num_sacks: Byte, user_mss: Word, mss_clamp: Word)

  class TCPOptionsReceived {
    var rcv_tsval: int
    var rcv_tsecr: int
    var saw_tstamp: int
    var tstamp_ok: bool
    var dsack: bool
    var wscale_ok: bool
    var sack_ok: Byte
    var snd_wscale: Byte
    var num_sacks: Byte
    var user_mss: Word
    var mss_clamp: Word

    ghost function Value(): Rx
      reads this
    {
      Rx(rcv_tsval, rcv_tsecr, saw_tstamp, tstamp_ok, dsack, wscale_ok, sack_ok, snd_wscale, num_sacks, user_mss, mss_clamp)
    }

    method tcpSackReset()
      modifies this`dsack, this`num_sacks
      ensures Value() == old(Value()).(dsack := false, num_sacks := 0)
    {
      dsack := false;
      num_sacks := 0;
    }

    method tcpClearOptions()
      modifies this`tstamp_ok, this`sack_ok, this`wscale_ok, this`snd_wscale
      ensures Value() == old(Value()).(tstamp_ok := false, sack_ok := 0, wscale_ok := false, snd_wscale := 0)
    {
      tstamp_ok, sack_ok, wscale_ok, snd_wscale := false, 0, false, 0;
    }
  }

  /** The byte of the segment's control block that the parser writes. */
  class ControlBlock {
    var sacked: Byte
  }

  // ---------- the option list of section 3.1 of RFC 793 ----------

  datatype TcpOption = NOP | Opt(kind: Byte, body: seq<Byte>)

  /** The bytes an option takes. */
  ghost function Size(o: TcpOption): nat {
    match o
    case NOP => 1
    case Opt(_, body) => |body| + 2
  }

  /**
   The options at the front of an area of n bytes: up to its end, the end marker, a size below 2, or an option that
   does not fit.
   */
  ghost function ReadOptions(area: seq<Byte>, n: int): seq<TcpOption>
    requires n <= |area|
    decreases if n < 0 then 0 else n
  {
    if n <= 0 || area[0] == TCPOPT_EOL then []
    else if area[0] == TCPOPT_NOP then [NOP] + ReadOptions(area[1..], n - 1)
    else if n == 1 then []
    else
      var size: int := area[1];
      if size < 2 || size > n then []
      else [Opt(area[0], area[2..size])] + ReadOptions(area[size..], n - size)
  }

  /** The parser's state: what was received, the control block's byte, and how far into the area it has come. */
  datatype State = State(rx: Rx, sacked: Byte, at: int)

  ghost function BigEndian32(b: seq<Byte>): int
    requires |b| >= 4
  {
    BigEndian(b[0], b[1]) as int * 0x1_0000 + BigEndian(b[2], b[3]) as int
  }

  ghost function ApplyRx(rx: Rx, syn: bool, o: TcpOption): Rx {
    match o
    case NOP => rx
    case Opt(kind, body) =>
      var size := |body| + 2;
      if kind == TCPOPT_MSS && size == TCPOLEN_MSS && syn then
        var mss := BigEndian(body[0], body[1]);
        if mss == 0 then rx
        else rx.(mss_clamp := if 0 < rx.user_mss < mss then rx.user_mss else mss)
      else if kind == TCPOPT_WINDOW && size == TCPOLEN_WINDOW && syn then
        rx.(wscale_ok := true, snd_wscale := if body[0] > 14 then 14 else body[0])
      else if kind == TCPOPT_TIMESTAMP && size == TCPOLEN_TIMESTAMP && rx.tstamp_ok then
        rx.(saw_tstamp := 1,
            rcv_tsval := BigEndian32(body), rcv_tsecr := BigEndian32(body[4..]))
      else if kind == TCPOPT_SACK_PERM && size == TCPOLEN_SACK_PERM && syn then
        rx.(sack_ok := 1, dsack := false, num_sacks := 0)
      else rx
  }

  ghost function ApplySacked(rx: Rx, sacked: Byte, at: int, o: TcpOption): Byte {
    if o.Opt? && o.kind == TCPOPT_SACK && |o.body| + 2 >= TCPOLEN_SACK_BASE + TCPOLEN_SACK_PERBLOCK
       && |o.body| % TCPOLEN_SACK_PERBLOCK == 0 && rx.sack_ok > 0
    then (20 + at % 0x100) % 0x100
    else sacked
  }

  ghost function Apply(st: State, syn: bool, o: TcpOption): State {
    State(ApplyRx(st.rx, syn, o), ApplySacked(st.rx, st.sacked, st.at, o), st.at + Size(o))
  }

  ghost function ApplyAll(st: State, syn: bool, os: seq<TcpOption>): State
    decreases |os|
  {
    if os == [] then st else ApplyAll(Apply(st, syn, os[0]), syn, os[1..])
  }

  // ---------- the parser ----------

  /** The length of the option area in bytes, in 16-bit arithmetic, so that an offset below 5 wraps around. */
  function OptionLength(dataOffsetAndFlags: Word): Word {
    (4 * (dataOffsetAndFlags as int / 0x10 % 0x10) - 20) % 0x1_0000
  }

  function IsSYN(dataOffsetAndFlags: Word): bool { dataOffsetAndFlags as int / 0x200 % 2 == 1 }

  /** With a data offset of at least 5 words the area holds the words beyond the fifth, at most 40 bytes. */
  lemma OptionLengthBounds(d: Word)
    requires d as int / 0x10 % 0x10 >= 5
    ensures OptionLength(d) as int == 4 * (d as int / 0x10 % 0x10 - 5) && OptionLength(d) <= 40
  {}

  /** The option whose body of opsize - 2 bytes starts at index. */
  ghost function OptAt(opcode: Byte, opsize: int, opt: seq<Byte>, index: nat): TcpOption
    requires 2 <= opsize && index + opsize - 2 <= |opt|
  {
    Opt(opcode, opt[index..index + opsize - 2])
  }

  method ParseMss(opsize: int, opt: seq<Byte>, index: nat, syn: bool, opt_rx: TCPOptionsReceived)
    requires 2 <= opsize && index + opsize - 2 <= |opt|
    modifies opt_rx`mss_clamp
    ensures opt_rx.Value() == ApplyRx(old(opt_rx.Value()), syn, OptAt(TCPOPT_MSS, opsize, opt, index))
  {
    if opsize == TCPOLEN_MSS && syn {
      hide Ntohs, Byte2uint16, BigEndian;
      NetworkWord(opt[index], opt[index + 1]);
      var in_mss := Ntohs(Byte2uint16(opt[index], opt[index + 1]));
      if in_mss > 0 {
        if opt_rx.user_mss > 0 && opt_rx.user_mss < in_mss {
          in_mss := opt_rx.user_mss;
        }
        opt_rx.mss_clamp := in_mss;
      }
    }
  }

  method ParseWindow(opsize: int, opt: seq<Byte>, index: nat, syn: bool, opt_rx: TCPOptionsReceived)
    requires 2 <= opsize && index + opsize - 2 <= |opt|
    modifies opt_rx`wscale_ok, opt_rx`snd_wscale
    ensures opt_rx.Value() == ApplyRx(old(opt_rx.Value()), syn, OptAt(TCPOPT_WINDOW, opsize, opt, index))
  {
    if opsize == TCPOLEN_WINDOW && syn {
      var snd_wscale := opt[index];
      opt_rx.wscale_ok := true;
      if snd_wscale > 14 {
        snd_wscale := 14;
      }
      opt_rx.snd_wscale := snd_wscale;
    }
  }

  method ParseTimestamp(opsize: int, opt: seq<Byte>, index: nat, syn: bool, opt_rx: TCPOptionsReceived)
    requires 2 <= opsize && index + opsize - 2 <= |opt|
    modifies opt_rx`saw_tstamp, opt_rx`rcv_tsval, opt_rx`rcv_tsecr
    ensures opt_rx.Value() == ApplyRx(old(opt_rx.Value()), syn, OptAt(TCPOPT_TIMESTAMP, opsize, opt, index))
  {
    if opsize == TCPOLEN_TIMESTAMP && opt_rx.tstamp_ok {
      hide Ntohl, Byte2uint32;
      TimestampWords(opt[index..index + 8]);
      assert opt[index..index + 8][..4] == opt[index..index + 4] && opt[index..index + 8][4..] == opt[index + 4..index + 8];
      opt_rx.saw_tstamp := 1;
      opt_rx.rcv_tsval := Ntohl(Byte2uint32(opt[index..index + 4]));
      opt_rx.rcv_tsecr := Ntohl(Byte2uint32(opt[index + 4..index + 8]));
    }
  }

  lemma TimestampWords(body: seq<Byte>)
    requires |body| == 8
    ensures 0 <= Byte2uint32(body[..4]) < WRAP32 && Ntohl(Byte2uint32(body[..4])) == BigEndian32(body)
    ensures 0 <= Byte2uint32(body[4..]) < WRAP32 && Ntohl(Byte2uint32(body[4..])) == BigEndian32(body[4..])
  {
    hide Ntohl, Byte2uint32;
    NetworkOrder(body[..4]);
    NetworkOrder(body[4..]);
  }

  method ParseSackPerm(opsize: int, opt: seq<Byte>, index: nat, syn: bool, opt_rx: TCPOptionsReceived)
    requires 2 <= opsize && index + opsize - 2 <= |opt|
    modifies opt_rx`sack_ok, opt_rx`dsack, opt_rx`num_sacks
    ensures opt_rx.Value() == ApplyRx(old(opt_rx.Value()), syn, OptAt(TCPOPT_SACK_PERM, opsize, opt, index))
  {
    if opsize == TCPOLEN_SACK_PERM && syn {
      opt_rx.sack_ok := 1;
      opt_rx.tcpSackReset();
    }
  }

  /** One option, from its kind and its body at index, onto the received options and the control block. */
  method ParseOne(opcode: Byte, opsize: int, opt: seq<Byte>, index: nat, syn: bool, opt_rx: TCPOptionsReceived, cb: ControlBlock)
    requires opcode != TCPOPT_NOP && 2 <= opsize && 2 <= index && index + opsize - 2 <= |opt|
    modifies opt_rx, cb
    ensures opt_rx.Value() == ApplyRx(old(opt_rx.Value()), syn, OptAt(opcode, opsize, opt, index))
    ensures cb.sacked == ApplySacked(old(opt_rx.Value()), old(cb.sacked), index - 2, OptAt(opcode, opsize, opt, index))
  {
    hide ApplyRx, ApplySacked;
    OtherKinds(opt_rx.Value(), cb.sacked, index - 2, syn, OptAt(opcode, opsize, opt, index));
    if opcode == TCPOPT_MSS {
      ParseMss(opsize, opt, index, syn, opt_rx);
    } else if opcode == TCPOPT_WINDOW {
      ParseWindow(opsize, opt, index, syn, opt_rx);
    } else if opcode == TCPOPT_TIMESTAMP {
      ParseTimestamp(opsize, opt, index, syn, opt_rx);
    } else if opcode == TCPOPT_SACK_PERM {
      ParseSackPerm(opsize, opt, index, syn, opt_rx);
    } else if opcode == TCPOPT_SACK {
      if opsize >= TCPOLEN_SACK_BASE + TCPOLEN_SACK_PERBLOCK
         && (opsize - TCPOLEN_SACK_BASE) % TCPOLEN_SACK_PERBLOCK == 0 && opt_rx.sack_ok > 0
      {
        cb.sacked := (20 + (index - 2) % 0x100) % 0x100;
      }
    }
  }

  /** Only a SACK option touches the control block, and it and unknown kinds leave the received options alone. */
  lemma OtherKinds(rx: Rx, sacked: Byte, at: int, syn: bool, o: TcpOption)
    ensures o.Opt? && o.kind !in {TCPOPT_MSS, TCPOPT_WINDOW, TCPOPT_TIMESTAMP, TCPOPT_SACK_PERM} ==> ApplyRx(rx, syn, o) == rx
    ensures o.Opt? && o.kind != TCPOPT_SACK ==> ApplySacked(rx, sacked, at, o) == sacked
    ensures o.Opt? && o.kind == TCPOPT_SACK ==>
              ApplySacked(rx, sacked, at, o) ==
              if |o.body| + 2 >= TCPOLEN_SACK_BASE + TCPOLEN_SACK_PERBLOCK && |o.body| % TCPOLEN_SACK_PERBLOCK == 0 && rx.sack_ok > 0
              then (20 + at % 0x100) % 0x100 else sacked
  {}

  /** The state in which parsing an area must end. */
  ghost function Parsed(rx: Rx, sacked: Byte, syn: bool, area: seq<Byte>, n: int): State
    requires n <= |area|
  {
    ApplyAll(State(rx.(saw_tstamp := 0), sacked, 0), syn, ReadOptions(area, n))
  }

  /** What is still to come when the cursor has reached at with n bytes left. */
  ghost function Rest(rx: Rx, sacked: Byte, syn: bool, opt: seq<Byte>, at: nat, n: int): State
    requires at + n <= |opt| && at <= |opt|
  {
    ApplyAll(State(rx, sacked, at), syn, ReadOptions(opt[at..], n))
  }

  /** Nothing follows an end marker, a size below 2 or an option that does not fit. */
  lemma RestStops(rx: Rx, sacked: Byte, syn: bool, opt: seq<Byte>, at: nat, n: nat)
    requires at + n <= |opt|
    requires n == 0 || opt[at] == TCPOPT_EOL || (opt[at] != TCPOPT_NOP && (n == 1 || opt[at + 1] < 2 || opt[at + 1] > n))
    ensures Rest(rx, sacked, syn, opt, at, n) == State(rx, sacked, at)
  {}

  lemma RestAfterNop(rx: Rx, sacked: Byte, syn: bool, opt: seq<Byte>, at: nat, n: nat)
    requires 0 < n && at + n <= |opt| && opt[at] == TCPOPT_NOP
    ensures Rest(rx, sacked, syn, opt, at, n) == Rest(rx, sacked, syn, opt, at + 1, n - 1)
  {
    assert opt[at..][1..] == opt[at + 1..];
    var os := ReadOptions(opt[at..], n);
    assert os == [NOP] + os[1..] && os[1..] == ReadOptions(opt[at + 1..], n - 1);
  }

  lemma RestAfterOption(rx: Rx, sacked: Byte, syn: bool, opt: seq<Byte>, at: nat, n: nat)
    requires 1 < n && at + n <= |opt| && opt[at] != TCPOPT_NOP && opt[at] != TCPOPT_EOL && 2 <= opt[at + 1] <= n
    ensures var o := OptAt(opt[at], opt[at + 1], opt, at + 2);
            Rest(rx, sacked, syn, opt, at, n)
            == Rest(ApplyRx(rx, syn, o), ApplySacked(rx, sacked, at, o), syn, opt, at + opt[at + 1], n - opt[at + 1])
  {
    hide ApplyRx, ApplySacked;
    var size := opt[at + 1];
    var o := OptAt(opt[at], size, opt, at + 2);
    assert opt[at..][size..] == opt[at + size..];
    assert opt[at..][2..size] == opt[at + 2..at + size];
    var os := ReadOptions(opt[at..], n);
    assert os == [o] + ReadOptions(opt[at + size..], n - size);
    assert os[1..] == ReadOptions(opt[at + size..], n - size);
  }

  /** The bytes the options take. */
  ghost function TotalSize(os: seq<TcpOption>): nat {
    if os == [] then 0 else Size(os[0]) + TotalSize(os[1..])
  }

  /**
   The parser looks for a size behind the last byte of the buffer: no byte follows the area, and its last byte is
   reached as the kind of an option that has a size.
   */
  ghost predicate Overruns(opt: seq<Byte>, n: int)
    requires n <= |opt|
  {
    OverrunsFrom(opt, 0, n)
  }

  ghost predicate OverrunsFrom(opt: seq<Byte>, at: nat, n: int)
    requires at + n <= |opt| && at <= |opt|
  {
    var end := at + TotalSize(ReadOptions(opt[at..], n));
    end + 1 == |opt| == at + n && opt[end] != TCPOPT_EOL && opt[end] != TCPOPT_NOP
  }

  lemma OverrunStops(opt: seq<Byte>, at: nat, n: nat)
    requires at + n <= |opt|
    requires n == 0 || opt[at] == TCPOPT_EOL || (opt[at] != TCPOPT_NOP && (n == 1 || opt[at + 1] < 2 || opt[at + 1] > n))
    ensures OverrunsFrom(opt, at, n) <==> n == 1 && at + 1 == |opt| && opt[at] != TCPOPT_EOL && opt[at] != TCPOPT_NOP
  {}

  lemma OverrunAfterNop(opt: seq<Byte>, at: nat, n: nat)
    requires 0 < n && at + n <= |opt| && opt[at] == TCPOPT_NOP
    ensures OverrunsFrom(opt, at, n) == OverrunsFrom(opt, at + 1, n - 1)
  {
    assert opt[at..][1..] == opt[at + 1..];
    var os := ReadOptions(opt[at..], n);
    assert os == [NOP] + os[1..] && os[1..] == ReadOptions(opt[at + 1..], n - 1);
  }

  lemma OverrunAfterOption(opt: seq<Byte>, at: nat, n: nat)
    requires 1 < n && at + n <= |opt| && opt[at] != TCPOPT_NOP && opt[at] != TCPOPT_EOL && 2 <= opt[at + 1] <= n
    ensures OverrunsFrom(opt, at, n) == OverrunsFrom(opt, at + opt[at + 1], n - opt[at + 1])
  {
    var size := opt[at + 1];
    assert opt[at..][size..] == opt[at + size..];
    var os := ReadOptions(opt[at..], n);
    assert os == [Opt(opt[at], opt[at..][2..size])] + ReadOptions(opt[at + size..], n - size);
    assert os[1..] == ReadOptions(opt[at + size..], n - size);
    assert Size(os[0]) == size;
  }

  lemma OverrunStart(opt: seq<Byte>, n: int)
    requires n <= |opt|
    ensures OverrunsFrom(opt, 0, n) == Overruns(opt, n)
  {}

  /**
   Parses the option area, which must lie in the buffer. Where Overruns says so, the size byte looked for lies behind
   the buffer and the source's run ends there; beyond tells so.
   */
  method tcpParseOpt(dataOffsetAndFlags: Word, opt: seq<Byte>, opt_rx: TCPOptionsReceived, cb: ControlBlock)
      returns (r: int, beyond: bool)
    requires OptionLength(dataOffsetAndFlags) as int <= |opt|
    modifies opt_rx, cb
    ensures r == 0 && (beyond <==> Overruns(opt, OptionLength(dataOffsetAndFlags)))
    ensures var st := Parsed(old(opt_rx.Value()), old(cb.sacked), IsSYN(dataOffsetAndFlags), opt, OptionLength(dataOffsetAndFlags));
            opt_rx.Value() == st.rx && cb.sacked == st.sacked
  {
    hide Rest, ApplyRx, ApplySacked, OptionLength, IsSYN, ReadOptions, ApplyAll, OptAt, OverrunsFrom, Overruns;
    opt_rx.saw_tstamp := 0;
    var length: int := OptionLength(dataOffsetAndFlags);
    var syn := IsSYN(dataOffsetAndFlags);
    var index := 0;
    ghost var total := length;
    ghost var st := Parsed(old(opt_rx.Value()), old(cb.sacked), syn, opt, length);
    ParsedIsRest(opt_rx.Value(), cb.sacked, syn, opt, length);
    OverrunStart(opt, length);
    while length > 0
      invariant 0 <= index && 0 <= length && index + length == total <= |opt|
      invariant Rest(opt_rx.Value(), cb.sacked, syn, opt, index, length) == st
      invariant OverrunsFrom(opt, index, length) == Overruns(opt, total)
      decreases length
    {
      var opcode := opt[index];
      ghost var at, rx, sacked := index, opt_rx.Value(), cb.sacked;
      index := index + 1;
      if opcode == TCPOPT_EOL {
        RestStops(rx, sacked, syn, opt, at, length);
        OverrunStops(opt, at, length);
        return 0, false;
      }
      if opcode == TCPOPT_NOP {
        RestAfterNop(rx, sacked, syn, opt, at, length);
        OverrunAfterNop(opt, at, length);
        length := length - 1;
        continue;
      }
      if index == |opt| {
        RestStops(rx, sacked, syn, opt, at, length);
        OverrunStops(opt, at, length);
        return 0, true;
      }
      var opsize: int := opt[index];
      index := index + 1;
      if opsize < 2 {
        RestStops(rx, sacked, syn, opt, at, length);
        OverrunStops(opt, at, length);
        return 0, false;
      }
      if opsize > length {
        RestStops(rx, sacked, syn, opt, at, length);
        OverrunStops(opt, at, length);
        return 0, false;
      }
      RestAfterOption(rx, sacked, syn, opt, at, length);
      OverrunAfterOption(opt, at, length);
      ParseOne(opcode, opsize, opt, index, syn, opt_rx, cb);
      index := index + opsize - 2;
      length := length - opsize;
    }
    RestStops(opt_rx.Value(), cb.sacked, syn, opt, index, length);
    OverrunStops(opt, index, length);
    return 0, false;
  }

  lemma ParsedIsRest(rx: Rx, sacked: Byte, syn: bool, opt: seq<Byte>, n: nat)
    requires n <= |opt| && rx.saw_tstamp == 0
    ensures Parsed(rx, sacked, syn, opt, n) == Rest(rx, sacked, syn, opt, 0, n)
  {
    assert opt[0..] == opt;
  }
}
