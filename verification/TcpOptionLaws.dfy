/** What the option parser's result means: the inverse of encoding, untouched by padding, and within its bounds. */
module TcpOptionLaws {
  import opened Checksums
  import opened TcpOptions

  // ---------- reading is the inverse of encoding ----------

  ghost predicate WellFormed(o: TcpOption) {
    o.NOP? || (o.kind != 0 && o.kind != 1 && |o.body| + 2 < 0x100)
  }

  ghost function EncodeOne(o: TcpOption): seq<Byte>
    requires WellFormed(o)
  {
    match o
    case NOP => [1]
    case Opt(kind, body) => [kind, |body| + 2] + body
  }

  ghost predicate AllWellFormed(os: seq<TcpOption>) { forall i :: 0 <= i < |os| ==> WellFormed(os[i]) }

  ghost function Encode(os: seq<TcpOption>): seq<Byte>
    requires AllWellFormed(os)
  {
    if os == [] then [] else EncodeOne(os[0]) + Encode(os[1..])
  }

  /** Parsing stops at the front of an area of n bytes: its end, the end marker, a silly size or a partial option. */
  ghost predicate Stops(area: seq<Byte>, n: int)
    requires 0 <= n <= |area|
  {
    n == 0 || area[0] == 0 || (area[0] != 1 && (n == 1 || area[1] < 2 || area[1] > n))
  }

  /** area starts with the encoding of os, and parsing stops behind it. */
  ghost predicate Encodes(area: seq<Byte>, n: int, os: seq<TcpOption>)
    requires n <= |area|
  {
    && AllWellFormed(os) && |Encode(os)| <= n && area[..|Encode(os)|] == Encode(os)
    && Stops(area[|Encode(os)|..], n - |Encode(os)|)
  }

  /** One step of Encodes. */
  lemma EncodesStep(area: seq<Byte>, n: int, os: seq<TcpOption>)
    requires 0 <= n <= |area| && os != [] && WellFormed(os[0])
    ensures Encodes(area, n, os) <==>
            var e := EncodeOne(os[0]);
            |e| <= n && area[..|e|] == e && Encodes(area[|e|..], n - |e|, os[1..])
  {
    hide Stops, EncodeOne;
    var e, tail := EncodeOne(os[0]), os[1..];
    assert os == [os[0]] + tail;
    assert AllWellFormed(os) <==> AllWellFormed(tail);
    if AllWellFormed(tail) && |e| + |Encode(tail)| <= n {
      var t := Encode(tail);
      assert Encode(os) == e + t;
      assert area[|e|..][|t|..] == area[|e| + |t|..];
      assert area[..|e| + |t|] == area[..|e|] + area[|e|..][..|t|];
    }
  }

  /** The options read are exactly those whose encoding the area starts with, up to the first stop. */
  lemma {:induction false} ReadsWhatIsEncoded(area: seq<Byte>, n: int, os: seq<TcpOption>)
    requires 0 <= n <= |area|
    ensures ReadOptions(area, n) == os <==> Encodes(area, n, os)
    decreases n
  {
    hide Stops, ReadOptions, EncodeOne, Encode;
    if Stops(area, n) {
      StopsReadsNothing(area, n, os);
    } else {
      ReadStep(area, n);
      var first := ReadOptions(area, n)[0];
      var e := EncodeOne(first);
      if os == [] {
        EncodesNothing(area, n);
      } else if WellFormed(os[0]) {
        EncodesStep(area, n, os);
        var f := EncodeOne(os[0]);
        if |f| <= n && area[..|f|] == f { FirstIsUnique(area, n, os[0]); }
        if os[0] == first {
          ReadsWhatIsEncoded(area[|e|..], n - |e|, os[1..]);
          assert os == [first] + os[1..];
          assert ReadOptions(area, n) == [first] + ReadOptions(area, n)[1..];
        }
      }
    }
  }

  lemma EncodesNothing(area: seq<Byte>, n: int)
    requires 0 <= n <= |area|
    ensures Encodes(area, n, []) <==> Stops(area, n)
  {
    hide Stops;
    assert Encode([]) == [] && area[0..] == area;
  }

  lemma StopsReadsNothing(area: seq<Byte>, n: int, os: seq<TcpOption>)
    requires 0 <= n <= |area| && Stops(area, n)
    ensures ReadOptions(area, n) == [] && (Encodes(area, n, os) <==> os == [])
  {
    EncodesNothing(area, n);
    if os != [] && WellFormed(os[0]) {
      hide Encodes, ReadOptions;
      EncodesStep(area, n, os);
      StopsBeforeAny(area, n, os[0]);
    }
  }

  lemma StopsBeforeAny(area: seq<Byte>, n: int, o: TcpOption)
    requires 0 <= n <= |area| && Stops(area, n) && WellFormed(o)
    ensures !(|EncodeOne(o)| <= n && area[..|EncodeOne(o)|] == EncodeOne(o))
  {
    var e := EncodeOne(o);
    assert |e| <= n ==> area[..|e|][0] == area[0];
    assert |e| <= n && o.Opt? ==> area[..|e|][1] == area[1];
  }

  /** Where parsing does not stop, it reads one well-formed option and goes on behind it. */
  lemma ReadStep(area: seq<Byte>, n: int)
    requires 0 <= n <= |area| && !Stops(area, n)
    ensures var os := ReadOptions(area, n);
            && os != [] && WellFormed(os[0]) && 0 < |EncodeOne(os[0])| <= n && area[..|EncodeOne(os[0])|] == EncodeOne(os[0])
            && os[1..] == ReadOptions(area[|EncodeOne(os[0])|..], n - |EncodeOne(os[0])|)
  {
    if area[0] != 1 {
      var size := area[1];
      assert area[..size] == [area[0], size] + area[2..size];
    }
  }

  lemma FirstIsUnique(area: seq<Byte>, n: int, o: TcpOption)
    requires 0 <= n <= |area| && !Stops(area, n) && WellFormed(o)
    requires |EncodeOne(o)| <= n && area[..|EncodeOne(o)|] == EncodeOne(o)
    ensures ReadOptions(area, n) != [] && ReadOptions(area, n)[0] == o
  {
    ReadStep(area, n);
    var first := ReadOptions(area, n)[0];
    var e, f := EncodeOne(o), EncodeOne(first);
    assert e[0] == area[0] == f[0];
    if o.Opt? {
      assert e[1] == area[1] == f[1];
      assert area[..|e|] == e && area[..|f|] == f && |e| == |f|;
      assert e[2..] == o.body && f[2..] == first.body;
    }
  }

  /** A byte behind the area decides nothing: only the n bytes of the area matter. */
  lemma {:induction false} OnlyTheAreaMatters(a: seq<Byte>, b: seq<Byte>, n: int)
    requires 0 <= n <= |a| && n <= |b| && a[..n] == b[..n]
    ensures ReadOptions(a, n) == ReadOptions(b, n)
    decreases n
  {
    hide ReadOptions, EncodeOne, WellFormed;
    SameStops(a, b, n);
    if Stops(a, n) {
      StopsReadsNothing(a, n, []);
      StopsReadsNothing(b, n, []);
    } else {
      ReadStep(a, n);
      ReadStep(b, n);
      var o := ReadOptions(a, n)[0];
      var e := EncodeOne(o);
      assert b[..|e|] == b[..n][..|e|] == a[..n][..|e|] == a[..|e|];
      FirstIsUnique(b, n, o);
      assert a[..n][|e|..] == a[|e|..][..n - |e|] && b[..n][|e|..] == b[|e|..][..n - |e|];
      OnlyTheAreaMatters(a[|e|..], b[|e|..], n - |e|);
      assert ReadOptions(a, n) == [o] + ReadOptions(a, n)[1..] && ReadOptions(b, n) == [o] + ReadOptions(b, n)[1..];
    }
  }

  lemma SameStops(a: seq<Byte>, b: seq<Byte>, n: int)
    requires 0 <= n <= |a| && n <= |b| && a[..n] == b[..n]
    ensures Stops(a, n) == Stops(b, n)
  {
    if n > 0 { assert a[..n][0] == b[..n][0]; }
    if n > 1 { assert a[..n][1] == b[..n][1]; }
  }

  /** Behind an end marker any bytes may stand. */
  lemma AfterTheEnd(a: seq<Byte>, b: seq<Byte>, n: int)
    requires 0 <= n <= |a| && n <= |b|
    requires var os := ReadOptions(a, n);
             AllWellFormed(os) && |Encode(os)| < n && a[|Encode(os)|] == 0 && b[..|Encode(os)| + 1] == a[..|Encode(os)| + 1]
    ensures ReadOptions(b, n) == ReadOptions(a, n)
  {
    var os := ReadOptions(a, n);
    var k := |Encode(os)|;
    ReadsWhatIsEncoded(a, n, os);
    assert b[..k] == b[..k + 1][..k] == a[..k];
    assert b[..k + 1][k] == b[k];
    ReadsWhatIsEncoded(b, n, os);
  }

  lemma ReadIsWellFormed(area: seq<Byte>, n: int)
    requires n <= |area|
    ensures AllWellFormed(ReadOptions(area, n))
  {
    if n >= 0 { ReadsWhatIsEncoded(area, n, ReadOptions(area, n)); }
  }

  lemma {:induction false} EncodedSize(os: seq<TcpOption>)
    requires AllWellFormed(os)
    ensures |Encode(os)| == TotalSize(os)
  {
    if os != [] { EncodedSize(os[1..]); }
  }

  /** The parser looks behind the buffer exactly when the area ends there, in whole options and one byte that needs a size. */
  lemma OverrunMeaning(opt: seq<Byte>, n: int)
    requires 0 <= n <= |opt|
    ensures Overruns(opt, n) <==>
            n == |opt| && n > 0 && opt[n - 1] > 1 && exists os :: AllWellFormed(os) && Encode(os) == opt[..n - 1]
  {
    hide ReadOptions, Encode, WellFormed;
    var read := ReadOptions(opt, n);
    ReadsWhatIsEncoded(opt, n, read);
    EncodedSize(read);
    assert opt[0..] == opt;
    if n == |opt| && n > 0 && opt[n - 1] > 1 {
      forall os | AllWellFormed(os) && Encode(os) == opt[..n - 1] ensures os == read {
        assert Stops(opt[n - 1..], 1);
        ReadsWhatIsEncoded(opt, n, os);
      }
    }
  }

  // ---------- padding ----------

  ghost function WithoutNops(os: seq<TcpOption>): seq<TcpOption> {
    if os == [] then [] else (if os[0].NOP? then [] else [os[0]]) + WithoutNops(os[1..])
  }

  ghost function ApplyAllRx(rx: Rx, syn: bool, os: seq<TcpOption>): Rx
    decreases |os|
  {
    if os == [] then rx else ApplyAllRx(ApplyRx(rx, syn, os[0]), syn, os[1..])
  }

  /** What is received depends on the options other than NOP alone, not on where in the area they stand. */
  lemma {:induction false} PaddingIsInvisible(st: State, syn: bool, os: seq<TcpOption>)
    ensures ApplyAll(st, syn, os).rx == ApplyAllRx(st.rx, syn, WithoutNops(os))
    decreases |os|
  {
    hide ApplyRx, ApplySacked;
    if os != [] {
      var next, tail := Apply(st, syn, os[0]), WithoutNops(os[1..]);
      PaddingIsInvisible(next, syn, os[1..]);
      if os[0].NOP? {
        NopChangesNothing(st.rx, syn);
        assert WithoutNops(os) == [] + tail == tail;
        assert next.rx == st.rx;
      } else {
        var kept := WithoutNops(os);
        assert kept == [os[0]] + tail;
        assert kept[0] == os[0] && kept[1..] == tail;
        assert ApplyAllRx(st.rx, syn, kept) == ApplyAllRx(next.rx, syn, tail);
      }
    }
  }

  lemma NopChangesNothing(rx: Rx, syn: bool)
    ensures ApplyRx(rx, syn, NOP) == rx
  {}

  lemma {:induction false} WithoutNopsSplit(a: seq<TcpOption>, b: seq<TcpOption>)
    ensures WithoutNops(a + b) == WithoutNops(a) + WithoutNops(b)
  {
    if a == [] {
      assert a + b == b;
    } else {
      assert (a + b)[0] == a[0] && (a + b)[1..] == a[1..] + b;
      WithoutNopsSplit(a[1..], b);
    }
  }

  lemma EncodeFirst(os: seq<TcpOption>)
    requires os != [] && WellFormed(os[0]) && AllWellFormed(os[1..])
    ensures AllWellFormed(os) && Encode(os) == EncodeOne(os[0]) + Encode(os[1..])
  {
    hide WellFormed, EncodeOne;
    assert os == [os[0]] + os[1..];
  }

  lemma {:induction false} EncodeSplit(a: seq<TcpOption>, b: seq<TcpOption>)
    requires AllWellFormed(a) && AllWellFormed(b)
    ensures AllWellFormed(a + b) && Encode(a + b) == Encode(a) + Encode(b)
  {
    hide WellFormed, EncodeOne;
    if a == [] {
      assert a + b == b;
    } else {
      assert (a + b)[0] == a[0] && (a + b)[1..] == a[1..] + b;
      EncodeSplit(a[1..], b);
      EncodeFirst(a);
      EncodeFirst(a + b);
      hide Encode;
    }
  }

  /** area with a NOP put in at position at. */
  ghost function Padded(area: seq<Byte>, at: nat): seq<Byte>
    requires at <= |area|
  {
    area[..at] + [1] + area[at..]
  }

  /** Putting a NOP between two whole options puts a NOP into the list read. */
  lemma NopInsertedReads(area: seq<Byte>, n: int, before: seq<TcpOption>, after: seq<TcpOption>)
    requires 0 <= n <= |area| && ReadOptions(area, n) == before + after && AllWellFormed(before) && |Encode(before)| <= |area|
    ensures ReadOptions(Padded(area, |Encode(before)|), n + 1) == before + [NOP] + after
  {
    hide ReadOptions, Stops, Encode, WellFormed;
    ReadsWhatIsEncoded(area, n, before + after);
    forall i | 0 <= i < |after| ensures WellFormed(after[i]) {
      assert (before + after)[|before| + i] == after[i];
    }
    PaddedEncodes(area, n, before, after);
    ReadsWhatIsEncoded(Padded(area, |Encode(before)|), n + 1, before + [NOP] + after);
  }

  lemma PaddedEncodes(area: seq<Byte>, n: int, before: seq<TcpOption>, after: seq<TcpOption>)
    requires 0 <= n <= |area| && AllWellFormed(before) && AllWellFormed(after) && |Encode(before)| <= |area|
    requires Encodes(area, n, before + after)
    ensures Encodes(Padded(area, |Encode(before)|), n + 1, before + [NOP] + after)
  {
    hide Stops, Encode, WellFormed;
    EncodeSplit(before, after);
    EncodeNop();
    EncodeSplit(before, [NOP]);
    EncodeSplit(before + [NOP], after);
    var k, m := |Encode(before)|, |Encode(after)|;
    var b := Padded(area, k);
    PutIn(area, k, m, Encode(before), Encode(after));
    assert |Encode(before + [NOP] + after)| == k + 1 + m;
  }

  lemma EncodeNop()
    ensures AllWellFormed([NOP]) && Encode([NOP]) == [1]
  {}

  lemma PutIn(area: seq<Byte>, k: nat, m: nat, x: seq<Byte>, y: seq<Byte>)
    requires k == |x| && m == |y| && k + m <= |area| && area[..k + m] == x + y
    ensures Padded(area, k)[..k + 1 + m] == x + [1] + y && Padded(area, k)[k + 1 + m..] == area[k + m..]
  {
    assert area[..k] == area[..k + m][..k] == x;
    assert area[k..k + m] == area[..k + m][k..] == y;
  }

  /** NOPs between whole options, the area extended to match, change nothing in what is received. */
  lemma NopInsertion(rx: Rx, sacked: Byte, syn: bool, area: seq<Byte>, n: int, before: seq<TcpOption>, after: seq<TcpOption>)
    requires 0 <= n <= |area| && ReadOptions(area, n) == before + after && AllWellFormed(before) && |Encode(before)| <= |area|
    ensures Parsed(rx, sacked, syn, Padded(area, |Encode(before)|), n + 1).rx == Parsed(rx, sacked, syn, area, n).rx
  {
    hide ReadOptions, ApplyAll, ApplyAllRx, Encode;
    var b := Padded(area, |Encode(before)|);
    NopInsertedReads(area, n, before, after);
    WithoutNopsSplit(before, after);
    WithoutNopsSplit(before + [NOP], after);
    WithoutNopsSplit(before, [NOP]);
    assert WithoutNops([NOP]) == [] && WithoutNops(before) + [] == WithoutNops(before);
    var st := State(rx.(saw_tstamp := 0), sacked, 0);
    PaddingIsInvisible(st, syn, before + after);
    PaddingIsInvisible(st, syn, before + [NOP] + after);
  }

  /** More generally, areas that differ in padding only give the same, however long they are and whatever is padded. */
  lemma PaddingOnly(rx: Rx, a: Byte, b: Byte, syn: bool, area: seq<Byte>, n: int, padded: seq<Byte>, m: int)
    requires n <= |area| && m < |padded|
    requires WithoutNops(ReadOptions(area, n)) == WithoutNops(ReadOptions(padded, m))
    ensures Parsed(rx, a, syn, area, n).rx == Parsed(rx, b, syn, padded, m).rx
  {
    PaddingIsInvisible(State(rx.(saw_tstamp := 0), a, 0), syn, ReadOptions(area, n));
    PaddingIsInvisible(State(rx.(saw_tstamp := 0), b, 0), syn, ReadOptions(padded, m));
  }

  // ---------- what is received ----------

  /** What an option is for, by its kind and the size of its body. */
  datatype Role = SegmentSize | WindowScale | SackPermitted | SackBlocks | Timestamps

  ghost predicate Plays(o: TcpOption, role: Role) {
    o.Opt?
    && match role
       case SegmentSize => o.kind == 2 && |o.body| == 2 && (o.body[0] != 0 || o.body[1] != 0)
       case WindowScale => o.kind == 3 && |o.body| == 1
       case SackPermitted => o.kind == 4 && o.body == []
       case SackBlocks => o.kind == 5 && |o.body| >= 8 && |o.body| % 8 == 0
       case Timestamps => o.kind == 8 && |o.body| == 8
  }

  ghost predicate Lacks(os: seq<TcpOption>, role: Role) { forall i :: 0 <= i < |os| ==> !Plays(os[i], role) }

  /** The option at i is the last with that role. */
  ghost predicate Last(os: seq<TcpOption>, role: Role, i: int) {
    0 <= i < |os| && Plays(os[i], role) && forall j :: i < j < |os| ==> !Plays(os[j], role)
  }

  /** A list without a last option of a role has none. */
  lemma {:induction false} LastOrNone(os: seq<TcpOption>, role: Role)
    ensures Lacks(os, role) || exists i :: Last(os, role, i)
  {
    hide Plays;
    if os != [] {
      var k := |os| - 1;
      if Plays(os[k], role) {
        assert Last(os, role, k);
      } else {
        LastOrNone(os[..k], role);
        if i :| Last(os[..k], role, i) { assert Last(os, role, i); }
      }
    }
  }

  /** What a role writes is the same in both states. */
  ghost predicate Keeps(role: Role, a: State, b: State) {
    match role
    case SegmentSize => b.rx.mss_clamp == a.rx.mss_clamp
    case WindowScale => b.rx.wscale_ok == a.rx.wscale_ok && b.rx.snd_wscale == a.rx.snd_wscale
    case SackPermitted => b.rx.sack_ok == a.rx.sack_ok && b.rx.dsack == a.rx.dsack && b.rx.num_sacks == a.rx.num_sacks
    case SackBlocks => b.sacked == a.sacked
    case Timestamps =>
      b.rx.saw_tstamp == a.rx.saw_tstamp && b.rx.rcv_tsval == a.rx.rcv_tsval && b.rx.rcv_tsecr == a.rx.rcv_tsecr
  }

  /** Three of the roles are for segments with SYN, and timestamps must have been agreed on. */
  ghost predicate Idle(role: Role, rx: Rx, syn: bool) {
    match role
    case SegmentSize => !syn
    case WindowScale => !syn
    case SackPermitted => !syn
    case SackBlocks => false
    case Timestamps => !rx.tstamp_ok
  }

  lemma KeptByOne(st: State, syn: bool, o: TcpOption)
    ensures var r := Apply(st, syn, o);
            && r.rx.user_mss == st.rx.user_mss && r.rx.tstamp_ok == st.rx.tstamp_ok && r.at == st.at + Size(o)
            && forall role :: !Plays(o, role) || Idle(role, st.rx, syn) ==> Keeps(role, st, r)
  {}

  lemma {:induction false} KeptByAll(st: State, syn: bool, os: seq<TcpOption>)
    ensures var r := ApplyAll(st, syn, os);
            && r.rx.user_mss == st.rx.user_mss && r.rx.tstamp_ok == st.rx.tstamp_ok && r.at == st.at + TotalSize(os)
            && forall role :: Lacks(os, role) || Idle(role, st.rx, syn) ==> Keeps(role, st, r)
    decreases |os|
  {
    hide Plays, Apply, Size;
    if os != [] {
      var next := Apply(st, syn, os[0]);
      KeptByOne(st, syn, os[0]);
      KeptByAll(next, syn, os[1..]);
      var r := ApplyAll(next, syn, os[1..]);
      forall role | Lacks(os, role) || Idle(role, st.rx, syn) ensures Keeps(role, st, r) {
        assert Keeps(role, st, next);
        assert Lacks(os, role) ==> Lacks(os[1..], role);
        assert Idle(role, st.rx, syn) ==> Idle(role, next.rx, syn);
        assert Keeps(role, next, r);
      }
    }
  }

  lemma {:induction false} ApplySplit(st: State, syn: bool, a: seq<TcpOption>, b: seq<TcpOption>)
    ensures ApplyAll(st, syn, a + b) == ApplyAll(ApplyAll(st, syn, a), syn, b)
    decreases |a|
  {
    hide Apply;
    if a == [] {
      assert a + b == b;
    } else {
      assert (a + b)[0] == a[0] && (a + b)[1..] == a[1..] + b;
      ApplySplit(Apply(st, syn, a[0]), syn, a[1..], b);
    }
  }

  /** The last option of a role decides what it writes; what is consulted for that was there before. */
  lemma LastDecides(st: State, syn: bool, os: seq<TcpOption>, role: Role, i: int)
    requires Last(os, role, i)
    ensures var before := ApplyAll(st, syn, os[..i]);
            && before.rx.user_mss == st.rx.user_mss && before.rx.tstamp_ok == st.rx.tstamp_ok
            && before.at == st.at + TotalSize(os[..i])
            && Keeps(role, Apply(before, syn, os[i]), ApplyAll(st, syn, os))
  {
    hide Plays, Keeps, TotalSize, Apply;
    var before, rest := ApplyAll(st, syn, os[..i]), os[i + 1..];
    assert os == os[..i] + ([os[i]] + rest);
    ApplySplit(st, syn, os[..i], [os[i]] + rest);
    assert ([os[i]] + rest)[1..] == rest;
    KeptByAll(st, syn, os[..i]);
    KeptByAll(Apply(before, syn, os[i]), syn, rest);
    assert Lacks(rest, role);
  }

  /** The state parsing starts from. */
  ghost function Fresh(rx: Rx, sacked: Byte): State { State(rx.(saw_tstamp := 0), sacked, 0) }

  lemma ParsedIsFold(rx: Rx, sacked: Byte, syn: bool, area: seq<Byte>, n: int)
    requires n <= |area|
    ensures Parsed(rx, sacked, syn, area, n) == ApplyAll(Fresh(rx, sacked), syn, ReadOptions(area, n))
  {}

  /**
   With SYN the last segment size offered, if it is not zero, is taken, or any smaller one the user asked for; without
   such an option nothing changes.
   */
  lemma SegmentSizeAgreed(rx: Rx, sacked: Byte, syn: bool, area: seq<Byte>, n: int)
    requires n <= |area|
    ensures var os, r := ReadOptions(area, n), Parsed(rx, sacked, syn, area, n).rx;
            && r.user_mss == rx.user_mss
            && (!syn || Lacks(os, SegmentSize) ==> r.mss_clamp == rx.mss_clamp)
            && forall i | syn && Last(os, SegmentSize, i) ::
                 var mss := os[i].body[0] as int * 0x100 + os[i].body[1] as int;
                 r.mss_clamp as int == if rx.user_mss == 0 || mss <= rx.user_mss then mss else rx.user_mss
  {
    hide ApplyAll, ReadOptions, Parsed;
    var os, st := ReadOptions(area, n), Fresh(rx, sacked);
    ParsedIsFold(rx, sacked, syn, area, n);
    KeptByAll(st, syn, os);
    assert !syn || Lacks(os, SegmentSize) ==> Keeps(SegmentSize, st, ApplyAll(st, syn, os));
    forall i | Last(os, SegmentSize, i)
      ensures Keeps(SegmentSize, Apply(ApplyAll(st, syn, os[..i]), syn, os[i]), ApplyAll(st, syn, os))
      ensures ApplyAll(st, syn, os[..i]).rx.user_mss == rx.user_mss
    {
      LastDecides(st, syn, os, SegmentSize, i);
    }
  }

  /** With SYN the last window scale option turns scaling on, by at most 14 bits. */
  lemma WindowScaleAgreed(rx: Rx, sacked: Byte, syn: bool, area: seq<Byte>, n: int)
    requires n <= |area|
    ensures var os, r := ReadOptions(area, n), Parsed(rx, sacked, syn, area, n).rx;
            && (!syn || Lacks(os, WindowScale) ==> r.wscale_ok == rx.wscale_ok && r.snd_wscale == rx.snd_wscale)
            && forall i | syn && Last(os, WindowScale, i) ::
                 r.wscale_ok && r.snd_wscale == if os[i].body[0] <= 14 then os[i].body[0] else 14
  {
    hide ApplyAll, ReadOptions, Parsed;
    var os, st := ReadOptions(area, n), Fresh(rx, sacked);
    ParsedIsFold(rx, sacked, syn, area, n);
    KeptByAll(st, syn, os);
    assert !syn || Lacks(os, WindowScale) ==> Keeps(WindowScale, st, ApplyAll(st, syn, os));
    forall i | Last(os, WindowScale, i)
      ensures Keeps(WindowScale, Apply(ApplyAll(st, syn, os[..i]), syn, os[i]), ApplyAll(st, syn, os))
    {
      LastDecides(st, syn, os, WindowScale, i);
    }
  }

  /** Selective acknowledgement is agreed on, and its state cleared, exactly when SYN comes with such an option. */
  lemma SackAgreed(rx: Rx, sacked: Byte, syn: bool, area: seq<Byte>, n: int)
    requires n <= |area|
    ensures var os, r := ReadOptions(area, n), Parsed(rx, sacked, syn, area, n).rx;
            if syn && !Lacks(os, SackPermitted) then r.sack_ok == 1 && !r.dsack && r.num_sacks == 0
            else r.sack_ok == rx.sack_ok && r.dsack == rx.dsack && r.num_sacks == rx.num_sacks
  {
    hide ApplyAll, ReadOptions, Parsed;
    ParsedIsFold(rx, sacked, syn, area, n);
    SackOkOf(Fresh(rx, sacked), syn, ReadOptions(area, n));
  }

  lemma SackOkOf(st: State, syn: bool, os: seq<TcpOption>)
    ensures var r := ApplyAll(st, syn, os).rx;
            if syn && !Lacks(os, SackPermitted) then r.sack_ok == 1 && !r.dsack && r.num_sacks == 0
            else r.sack_ok == st.rx.sack_ok && r.dsack == st.rx.dsack && r.num_sacks == st.rx.num_sacks
  {
    hide ApplyAll;
    KeptByAll(st, syn, os);
    LastOrNone(os, SackPermitted);
    if i :| Last(os, SackPermitted, i) {
      LastDecides(st, syn, os, SackPermitted, i);
    }
  }

  /** Once agreed on it stays so, and before that no option with blocks is noted. */
  lemma {:induction false} NotedOnlyIfAgreed(st: State, syn: bool, os: seq<TcpOption>)
    ensures var r := ApplyAll(st, syn, os); r.rx.sack_ok == 0 ==> st.rx.sack_ok == 0 && r.sacked == st.sacked
    decreases |os|
  {
    if os != [] { NotedOnlyIfAgreed(Apply(st, syn, os[0]), syn, os[1..]); }
  }

  /**
   The control block notes where the last option with whole SACK blocks stands, counted from the start of the header,
   if selective acknowledgement was agreed on by then.
   */
  lemma SackNoted(rx: Rx, sacked: Byte, syn: bool, area: seq<Byte>, n: int)
    requires n <= |area|
    ensures var os, r := ReadOptions(area, n), Parsed(rx, sacked, syn, area, n).sacked;
            && AllWellFormed(os) && (Lacks(os, SackBlocks) ==> r == sacked)
            && forall i | Last(os, SackBlocks, i) ::
                 r as int == if rx.sack_ok > 0 || (syn && !Lacks(os[..i], SackPermitted)) then (20 + |Encode(os[..i])|) % 0x100 else sacked
  {
    hide *;
    ReadIsWellFormed(area, n);
    var os, st := ReadOptions(area, n), Fresh(rx, sacked);
    ParsedIsFold(rx, sacked, syn, area, n);
    NothingNoted(st, syn, os);
    FreshParts(rx, sacked);
    forall i | Last(os, SackBlocks, i)
      ensures 0 <= i < |os| && AllWellFormed(os[..i])
      ensures ApplyAll(st, syn, os).sacked as int
              == if rx.sack_ok > 0 || (syn && !Lacks(os[..i], SackPermitted)) then (20 + |Encode(os[..i])|) % 0x100 else sacked
    {
      NotedAt(st, syn, os, i);
    }
  }

  lemma FreshParts(rx: Rx, sacked: Byte)
    ensures var st := Fresh(rx, sacked); st.at == 0 && st.sacked == sacked && st.rx.sack_ok == rx.sack_ok
  {}

  lemma NothingNoted(st: State, syn: bool, os: seq<TcpOption>)
    ensures Lacks(os, SackBlocks) ==> ApplyAll(st, syn, os).sacked == st.sacked
  {
    KeptByAll(st, syn, os);
    assert Lacks(os, SackBlocks) ==> Keeps(SackBlocks, st, ApplyAll(st, syn, os));
  }

  lemma NotedAt(st: State, syn: bool, os: seq<TcpOption>, i: int)
    requires Last(os, SackBlocks, i) && AllWellFormed(os) && st.at == 0
    ensures 0 <= i < |os| && AllWellFormed(os[..i])
    ensures ApplyAll(st, syn, os).sacked as int
            == if st.rx.sack_ok > 0 || (syn && !Lacks(os[..i], SackPermitted)) then (20 + |Encode(os[..i])|) % 0x100 else st.sacked
  {
    hide ApplyAll, TotalSize, Lacks, Encode, WellFormed;
    EncodedSize(os[..i]);
    LastDecides(st, syn, os, SackBlocks, i);
    SackOkOf(st, syn, os[..i]);
    NotedOnlyIfAgreed(st, syn, os[..i]);
  }

  /** A timestamp is reported exactly when it was agreed on and one stands in the list; the last one's values stay. */
  lemma SawTimestamp(rx: Rx, sacked: Byte, syn: bool, area: seq<Byte>, n: int)
    requires n <= |area|
    ensures var os, r := ReadOptions(area, n), Parsed(rx, sacked, syn, area, n).rx;
            && r.tstamp_ok == rx.tstamp_ok && r.saw_tstamp == (if rx.tstamp_ok && !Lacks(os, Timestamps) then 1 else 0)
            && (!rx.tstamp_ok || Lacks(os, Timestamps) ==> r.rcv_tsval == rx.rcv_tsval && r.rcv_tsecr == rx.rcv_tsecr)
            && forall i | rx.tstamp_ok && Last(os, Timestamps, i) ::
                 var b := os[i].body;
                 && r.rcv_tsval == b[0] as int * 0x100_0000 + b[1] as int * 0x1_0000 + b[2] as int * 0x100 + b[3] as int
                 && r.rcv_tsecr == b[4] as int * 0x100_0000 + b[5] as int * 0x1_0000 + b[6] as int * 0x100 + b[7] as int
  {
    hide ApplyAll, ReadOptions, Parsed;
    var os, st := ReadOptions(area, n), Fresh(rx, sacked);
    ParsedIsFold(rx, sacked, syn, area, n);
    KeptByAll(st, syn, os);
    LastOrNone(os, Timestamps);
    assert !rx.tstamp_ok || Lacks(os, Timestamps) ==> Keeps(Timestamps, st, ApplyAll(st, syn, os));
    forall i | Last(os, Timestamps, i)
      ensures Keeps(Timestamps, Apply(ApplyAll(st, syn, os[..i]), syn, os[i]), ApplyAll(st, syn, os))
      ensures ApplyAll(st, syn, os[..i]).rx.tstamp_ok == rx.tstamp_ok
    {
      LastDecides(st, syn, os, Timestamps, i);
    }
  }

  /**
   Whatever the area holds: the window scale stays at most 14, and the segment size is left alone or becomes positive
   and at most any size the user asked for.
   */
  lemma ParsedBounds(rx: Rx, sacked: Byte, syn: bool, area: seq<Byte>, n: int)
    requires n <= |area|
    ensures var r := Parsed(rx, sacked, syn, area, n).rx;
            && r.user_mss == rx.user_mss && (rx.snd_wscale <= 14 ==> r.snd_wscale <= 14)
            && (r.mss_clamp == rx.mss_clamp || (0 < r.mss_clamp && (rx.user_mss > 0 ==> r.mss_clamp <= rx.user_mss)))
            && (!syn ==> r.mss_clamp == rx.mss_clamp && r.snd_wscale == rx.snd_wscale && r.wscale_ok == rx.wscale_ok && r.sack_ok == rx.sack_ok)
  {
    hide Parsed, ReadOptions, Lacks;
    LastOrNone(ReadOptions(area, n), SegmentSize);
    LastOrNone(ReadOptions(area, n), WindowScale);
    SegmentSizeAgreed(rx, sacked, syn, area, n);
    WindowScaleAgreed(rx, sacked, syn, area, n);
    SackAgreed(rx, sacked, syn, area, n);
  }

  // ---------- the two bytes the area and SYN are read from ----------

  /** The upper half of the first byte counts words, and SYN is the bit 0x02 of the second. */
  lemma HeaderWord(offset: Byte, flags: Byte)
    ensures IsSYN(Byte2uint16(offset, flags)) <==> flags / 2 % 2 == 1
    ensures OptionLength(Byte2uint16(offset, flags)) as int
            == if offset / 0x10 >= 5 then 4 * (offset / 0x10) - 20 else 0x1_0000 + 4 * (offset / 0x10) - 20
  {
    hide Byte2uint16, IsSYN, OptionLength;
    var w := Byte2uint16(offset, flags);
    FlagBit(w, offset, flags);
    OffsetBits(w, offset, flags);
  }

  lemma FlagBit(w: Word, offset: Byte, flags: Byte)
    requires w % 0x100 == offset && w / 0x100 == flags
    ensures IsSYN(w) <==> flags / 2 % 2 == 1
  {
    var q, r := flags / 2, flags % 2;
    assert w as int == 0x200 * q + (0x100 * r + offset);
    assert w as int / 0x200 == q;
  }

  lemma OffsetBits(w: Word, offset: Byte, flags: Byte)
    requires w % 0x100 == offset && w / 0x100 == flags
    ensures OptionLength(w) as int == if offset / 0x10 >= 5 then 4 * (offset / 0x10) - 20 else 0x1_0000 + 4 * (offset / 0x10) - 20
  {
    var q, r := offset / 0x10, offset % 0x10;
    assert w as int == 0x10 * (0x10 * flags + q) + r;
    assert w as int / 0x10 == 0x10 * flags + q;
    assert (0x10 * flags + q) % 0x10 == q;
    hide OptionLength;
    LengthOf(w, q);
  }

  lemma LengthOf(w: Word, q: int)
    requires 0 <= q < 0x10 && w as int / 0x10 % 0x10 == q
    ensures OptionLength(w) as int == if q >= 5 then 4 * q - 20 else 0x1_0000 + 4 * q - 20
  {}
}
