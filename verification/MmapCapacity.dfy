/**
 When the capacities of the mmap maps matter: no update is refused iff never more than
 sixteen mappings are live, which four pids cannot exceed and five can; and runs of packets,
 whose pending and fd maps other programs fill at will, are runs of requests.
 */
module MmapCapacity {
  import opened BpfMap
  import opened FiniteSets
  import opened MmapRing
  import opened MmapHistory

  lemma {:induction false} StartsComeFromRequests(h: seq<Store>, pid: int, start: U64)
    requires start in PidStarts(h, pid)
    ensures exists i :: 0 <= i < |h| && h[i].Effective() && h[i].TableKey() == Key(pid, start)
  {
    var n := |h| - 1;
    if h[n].Effective() && h[n].TableKey() == Key(pid, start) {
    } else {
      StartsComeFromRequests(h[..n], pid, start);
      var i :| 0 <= i < n && h[..n][i].Effective() && h[..n][i].TableKey() == Key(pid, start);
      assert h[i] == h[..n][i];
    }
  }

  lemma LiveKeysAreLive(h: seq<Store>)
    ensures forall key :: key in LiveKeys(h) <==> Live(h, key)
  {
    forall key | Live(h, key) ensures key in LiveKeys(h) {
      StartsComeFromRequests(h, key.pid, key.start);
    }
  }

  lemma {:induction false} PidsOfKeys(keys: set<Key>)
    ensures |set key | key in keys :: key.pid| <= |keys|
  {
    var pids := set key | key in keys :: key.pid;
    if key :| key in keys {
      var rest := keys - {key};
      PidsOfKeys(rest);
      var restPids := set k | k in rest :: k.pid;
      assert pids == restPids + {key.pid};
    } else {
      assert pids == {};
    }
  }

  lemma PidsAtMostLive(h: seq<Store>)
    ensures |Pids(h)| <= |LiveKeys(h)|
  {
    LiveKeysAreLive(h);
    var pids := set key | key in LiveKeys(h) :: key.pid;
    forall pid | pid in Pids(h) ensures pid in pids {
      PidsHaveStarts(h, pid);
      var s := PidStarts(h, pid);
      assert InLastFour(s, s[|s| - 1]);
      assert Key(pid, s[|s| - 1]) in LiveKeys(h);
    }
    SmallerSet(Pids(h), pids);
    PidsOfKeys(LiveKeys(h));
  }

  lemma LiveKeysStep(t: Core, h: seq<Store>, e: Store)
    requires Agrees(t, h)
    ensures t.mmaps.Keys == LiveKeys(h)
    ensures LiveKeys(h + [e]) == if e.Effective() then t.AfterEviction(e).Keys + {e.TableKey()} else LiveKeys(h)
  {
    LiveKeysAreLive(h);
    LiveKeysAreLive(h + [e]);
    forall key
      ensures key in LiveKeys(h + [e]) <==>
        key in if e.Effective() then t.AfterEviction(e).Keys + {e.TableKey()} else LiveKeys(h)
    {
      if e.Effective() {
        EvictsWhatLeaves(t, h, e);
        LiveStep(h, e, key);
      } else {
        PidStartsStep(h, e, key.pid);
        assert PidStarts(h, key.pid) + [] == PidStarts(h, key.pid);
      }
    }
  }

  lemma AddOne<T>(s: set<T>, x: T)
    ensures |s + {x}| == if x in s then |s| else |s| + 1
  {
    if x in s { assert s + {x} == s; }
  }

  lemma RoomIffFits<K, V>(m: map<K, V>, key: K)
    requires |m| <= CAPACITY
    ensures HasRoom(m, key, CAPACITY) <==> |m.Keys + {key}| <= CAPACITY
  {
    AddOne(m.Keys, key);
    assert |m| == |m.Keys|;
  }

  /** A request is carried out without a refused update iff the mappings live after it fit. */
  lemma AdmitsIffFits(t: Core, h: seq<Store>, e: Store)
    requires Agrees(t, h) && |LiveKeys(h)| <= CAPACITY
    ensures t.Admits(e) <==> |LiveKeys(h + [e])| <= CAPACITY
  {
    LiveKeysStep(t, h, e);
    if e.Effective() {
      var kept, key := t.AfterEviction(e), e.TableKey();
      assert HasRoom(kept, key, CAPACITY) <==> |kept.Keys + {key}| <= CAPACITY by {
        SmallerSet(kept.Keys, t.mmaps.Keys);
        assert |kept| == |kept.Keys|;
        RoomIffFits(kept, key);
      }
      assert HasRoom(t.index, e.pid, CAPACITY) <==> |Pids(h + [e])| <= CAPACITY by {
        PidsStep(h, e);
        PidsAtMostLive(h);
        assert |t.index| == |t.index.Keys|;
        RoomIffFits(t.index, e.pid);
      }
      PidsAtMostLive(h + [e]);
    }
  }

  ghost predicate AlwaysFits(h: seq<Store>) {
    forall n :: 0 <= n <= |h| ==> |LiveKeys(h[..n])| <= CAPACITY
  }

  lemma AlwaysFitsStep(g: seq<Store>, e: Store)
    ensures AlwaysFits(g + [e]) <==> AlwaysFits(g) && |LiveKeys(g + [e])| <= CAPACITY
  {
    var h := g + [e];
    assert h[..|h|] == h;
    forall n | 0 <= n <= |g| ensures h[..n] == g[..n] {}
  }

  /** The exact condition under which a run meets the main result. */
  lemma {:induction false} AdmittedIffAlwaysFits(h: seq<Store>)
    ensures Admitted(h) <==> AlwaysFits(h)
  {
    if h != [] {
      var m := |h| - 1;
      var g := h[..m];
      AdmittedIffAlwaysFits(g);
      assert g + [h[m]] == h;
      AlwaysFitsStep(g, h[m]);
      if Admitted(g) {
        assert |LiveKeys(g)| <= CAPACITY by { assert g[..m] == g; }
        AdmittedRunAgrees(g);
        AdmitsIffFits(Run(g), g, h[m]);
      }
    } else {
      assert LiveKeys([]) == {};
    }
  }

  lemma StoredFits(t: Core, e: Store)
    requires t.Valid() && |t.mmaps| <= CAPACITY
    ensures |t.Stored(e).mmaps| <= CAPACITY
  {
    SmallerSet(t.AfterEviction(e).Keys, t.mmaps.Keys);
    AddOne(t.AfterEviction(e).Keys, e.TableKey());
    assert |t.mmaps| == |t.mmaps.Keys| && |t.AfterEviction(e)| == |t.AfterEviction(e).Keys|;
    assert |t.Stored(e).mmaps| == |t.Stored(e).mmaps.Keys|;
  }

  lemma {:induction false} TableFits(h: seq<Store>)
    ensures |Run(h).mmaps| <= CAPACITY
  {
    if h != [] {
      TableFits(h[..|h| - 1]);
      StoredFits(Run(h[..|h| - 1]), h[|h| - 1]);
    }
  }

  /** Ring and table agree with the history after every prefix of the run. */
  ghost predicate AlwaysAgrees(h: seq<Store>) {
    forall n :: 0 <= n <= |h| ==> Agrees(Run(h[..n]), h[..n])
  }

  lemma {:induction false} AdmittedPrefix(h: seq<Store>, n: nat)
    requires Admitted(h) && n <= |h|
    ensures Admitted(h[..n])
  {
    if n < |h| {
      AdmittedPrefix(h[..|h| - 1], n);
      assert h[..|h| - 1][..n] == h[..n];
    } else {
      assert h[..n] == h;
    }
  }

  /** Ring and table are the last four stores of every pid at all times iff never more than sixteen
      mappings are live. */
  lemma AgreesIffAlwaysFits(h: seq<Store>)
    ensures AlwaysAgrees(h) <==> AlwaysFits(h)
  {
    if AlwaysFits(h) {
      AdmittedIffAlwaysFits(h);
      forall n | 0 <= n <= |h| ensures Agrees(Run(h[..n]), h[..n]) {
        AdmittedPrefix(h, n);
        AdmittedRunAgrees(h[..n]);
      }
    }
    if AlwaysAgrees(h) {
      forall n | 0 <= n <= |h| ensures |LiveKeys(h[..n])| <= CAPACITY {
        var g := h[..n];
        TableFits(g);
        LiveKeysAreLive(g);
        assert Run(g).mmaps.Keys == LiveKeys(g);
        assert |Run(g).mmaps| == |Run(g).mmaps.Keys|;
      }
    }
  }

  // ----- four pids fit, five may not ----------------------------------------------------

  ghost function KeysOf(live: set<Key>, pids: set<int>): set<Key> {
    set key | key in live && key.pid in pids
  }

  /** The start stored `back` stores ago, 0 if there is none. */
  ghost function Back(s: seq<U64>, back: nat): U64 {
    if 0 < back <= |s| then s[|s| - back] else 0
  }

  lemma OnePidHasFourKeys(h: seq<Store>, pid: int)
    ensures |KeysOf(LiveKeys(h), {pid})| <= SLOTS
  {
    LiveKeysAreLive(h);
    var s := PidStarts(h, pid);
    var a, b, c, d := Key(pid, Back(s, 1)), Key(pid, Back(s, 2)), Key(pid, Back(s, 3)), Key(pid, Back(s, 4));
    forall key | key in KeysOf(LiveKeys(h), {pid}) ensures key in {a} + {b} + {c} + {d} {
      var k :| 0 <= k < |s| && |s| - SLOTS <= k && s[k] == key.start;
      assert key == Key(pid, Back(s, |s| - k));
    }
    SmallerSet(KeysOf(LiveKeys(h), {pid}), {a} + {b} + {c} + {d});
    AddOne({a}, b);
    AddOne({a} + {b}, c);
    AddOne({a} + {b} + {c}, d);
  }

  lemma {:induction false} PidsHaveFourKeysEach(h: seq<Store>, live: set<Key>, pids: set<int>)
    requires live == LiveKeys(h)
    ensures |KeysOf(live, pids)| <= SLOTS * |pids|
  {
    if pid :| pid in pids {
      var rest := pids - {pid};
      PidsHaveFourKeysEach(h, live, rest);
      OnePidHasFourKeys(h, pid);
      assert KeysOf(live, pids) == KeysOf(live, rest) + KeysOf(live, {pid});
    } else {
      assert KeysOf(live, pids) == {};
    }
  }

  /** With at most four pids no update is ever refused. */
  lemma FourPidsNeverRefused(h: seq<Store>)
    requires |Pids(h)| <= 4
    ensures Admitted(h)
  {
    forall n | 0 <= n <= |h| ensures |LiveKeys(h[..n])| <= CAPACITY {
      var g := h[..n];
      forall pid | pid in Pids(g) ensures pid in Pids(h) {
        var i :| 0 <= i < |g| && g[i].Effective() && g[i].pid == pid;
        assert h[i] == g[i];
      }
      SmallerSet(Pids(g), Pids(h));
      PidsHaveFourKeysEach(g, LiveKeys(g), Pids(g));
      assert KeysOf(LiveKeys(g), Pids(g)) == LiveKeys(g);
    }
    AdmittedIffAlwaysFits(h);
  }

  const NO_PATH: seq<Byte> := [0, 0, 0, 0, 0, 0, 0, 0, 0, 0, 0, 0, 0, 0, 0, 0]
  const FD: FdRef := FdRef(NO_PATH, FileId(0, 0))
  const MAPPING: Pending := Pending(3, 1, 0, 0)

  /** Four distinct starts for each pid in turn. */
  ghost function Filling(n: nat): seq<Store>
    requires n <= 17
  {
    seq(n, i requires 0 <= i < n => Store(i / 4, MMAP_BASE + i % 4 * 4096, MAPPING, FD))
  }

  ghost function Share(n: nat, pid: int): nat {
    if pid < 0 || n < 4 * pid then 0 else if n - 4 * pid < 4 then n - 4 * pid else 4
  }

  lemma {:induction false} FillingStarts(n: nat, pid: int)
    requires n <= 17
    ensures |PidStarts(Filling(n), pid)| == Share(n, pid)
    ensures forall j :: 0 <= j < Share(n, pid) ==> PidStarts(Filling(n), pid)[j] == MMAP_BASE + j * 4096
  {
    if n > 0 {
      FillingStarts(n - 1, pid);
      assert Filling(n) == Filling(n - 1) + [Filling(n)[n - 1]];
      PidStartsStep(Filling(n - 1), Filling(n)[n - 1], pid);
    }
  }

  lemma NothingLeaves(g: seq<Store>, e: Store)
    requires e.Effective() && |PidStarts(g, e.pid)| < SLOTS
    ensures LiveKeys(g + [e]) == LiveKeys(g) + {e.TableKey()}
  {
    LiveKeysAreLive(g);
    LiveKeysAreLive(g + [e]);
    forall key ensures Live(g + [e], key) <==> Live(g, key) || key == e.TableKey() {
      LiveStep(g, e, key);
      LastFourNonzero(PidStarts(g, key.pid));
    }
  }

  lemma {:induction false} FillingLive(n: nat)
    requires n <= 17
    ensures |LiveKeys(Filling(n))| == n
  {
    if n == 0 {
      assert LiveKeys(Filling(0)) == {};
    } else {
      var g, e := Filling(n - 1), Filling(n)[n - 1];
      FillingLive(n - 1);
      assert Filling(n) == g + [e];
      FillingStarts(n - 1, e.pid);
      NothingLeaves(g, e);
      assert !Live(g, e.TableKey());
      LiveKeysAreLive(g);
      AddOne(LiveKeys(g), e.TableKey());
    }
  }

  lemma FillingStep(n: nat)
    requires n < 17
    ensures Filling(n + 1) == Filling(n) + [Filling(n + 1)[n]]
  {
  }

  lemma FillingAdmitted()
    ensures Admitted(Filling(16)) && Run(Filling(16)).mmaps.Keys == LiveKeys(Filling(16))
  {
    var h := Filling(16);
    forall n | 0 <= n <= 16 ensures |LiveKeys(h[..n])| <= CAPACITY {
      assert h[..n] == Filling(n);
      FillingLive(n);
    }
    AdmittedIffAlwaysFits(h);
    AdmittedRunAgrees(h);
    LiveKeysAreLive(h);
  }

  /** In a full table the first mapping of a new pid is refused, though it is live. */
  lemma NewPidRefused(t: Core, h: seq<Store>, e: Store)
    requires Agrees(t, h) && e.Effective() && |t.mmaps| == CAPACITY && PidStarts(h, e.pid) == []
    ensures !t.Admits(e) && e.TableKey() !in t.Stored(e).mmaps && Live(h + [e], e.TableKey())
  {
    EvictsWhatLeaves(t, h, e);
    assert !Live(h, e.TableKey());
    LiveStep(h, e, e.TableKey());
  }

  lemma SeventeenthRefused()
    ensures var h, e := Filling(16), Filling(17)[16];
      !Run(h).Admits(e) && e.TableKey() !in Run(h).Stored(e).mmaps && Live(h + [e], e.TableKey())
  {
    var h, e := Filling(16), Filling(17)[16];
    FillingAdmitted();
    FillingLive(16);
    FillingStarts(16, e.pid);
    AdmittedRunAgrees(h);
    assert |Run(h).mmaps| == |Run(h).mmaps.Keys|;
    NewPidRefused(Run(h), h, e);
  }

  lemma FillingPids()
    ensures Pids(Filling(17)) == {0, 1, 2, 3, 4}
  {
    var h := Filling(17);
    assert h[0].pid == 0 && h[4].pid == 1 && h[8].pid == 2 && h[12].pid == 3 && h[16].pid == 4;
  }

  lemma LastRefused(h: seq<Store>, g: seq<Store>, e: Store)
    requires h == g + [e] && !Run(g).Admits(e)
    ensures !Admitted(h) && Run(h) == Run(g).Stored(e)
  {
    assert h[..|h| - 1] == g;
  }

  // ----- runs of packets ----------------------------------------------------------------

  /** A packet together with what other programs have put into the pending and fd maps. */
  datatype Input = Input(pending: map<U64, Pending>, fds: map<FdKey, FdRef>, packet: seq<Byte>) {
    function Around(core: Core): Tables { Tables(core, pending, fds) }
  }

  ghost function PacketRun(inputs: seq<Input>): (t: Core)
    ensures t.Valid()
  {
    if inputs == [] then EMPTY
    else
      var last := inputs[|inputs| - 1];
      last.Around(PacketRun(inputs[..|inputs| - 1])).Handled(last.packet).core
  }

  ghost function Requests(inputs: seq<Input>): seq<Store> {
    if inputs == [] then []
    else
      var last := inputs[|inputs| - 1];
      Requests(inputs[..|inputs| - 1]) + last.Around(EMPTY).Request(last.packet)
  }

  lemma {:induction false} PacketsRunRequests(inputs: seq<Input>)
    ensures PacketRun(inputs) == Run(Requests(inputs))
  {
    if inputs != [] {
      var m := |inputs| - 1;
      var last := inputs[m];
      PacketsRunRequests(inputs[..m]);
      assert last.Around(PacketRun(inputs[..m])).Request(last.packet) == last.Around(EMPTY).Request(last.packet);
      var g, r := Requests(inputs[..m]), last.Around(EMPTY).Request(last.packet);
      if r == [] {
        assert g + r == g;
      } else {
        assert (g + r)[..|g + r| - 1] == g && (g + r)[|g + r| - 1] == r[0];
      }
    }
  }

  /** Over any run of packets from at most four pids, the table is the last four stores of each pid. */
  lemma PacketsKeepLastFour(inputs: seq<Input>, pid: int, start: U64)
    requires |Pids(Requests(inputs))| <= 4
    ensures Key(pid, start) in PacketRun(inputs).mmaps <==> InLastFour(PidStarts(Requests(inputs), pid), start)
  {
    PacketsRunRequests(inputs);
    FourPidsNeverRefused(Requests(inputs));
    RingAndTableHoldLastFour(Requests(inputs), pid);
  }

  /** Every packet asks for one mapping of its pid, at one of four starts. */
  ghost function FillingPackets(n: nat): seq<Input>
    requires n <= 17
  {
    seq(n, i requires 0 <= i < n =>
      Input(map[1 := MAPPING], map[FdKey(i / 4, 3) := FD], [i / 4, 1, 3, 0, i % 4]))
  }

  lemma {:induction false} FillingRequests(n: nat)
    requires n <= 17
    ensures Requests(FillingPackets(n)) == Filling(n)
  {
    if n > 0 {
      FillingRequests(n - 1);
      var inputs := FillingPackets(n);
      assert inputs[..n - 1] == FillingPackets(n - 1);
      assert inputs[n - 1].Around(EMPTY).Request(inputs[n - 1].packet) == [Filling(n)[n - 1]];
      FillingStep(n - 1);
    }
  }

  /** The bound of four is tight: over seventeen packets from five pids the last mapping, though it is
      the only one of its pid, does not get into the table. */
  lemma FivePidsCanBeRefused()
    ensures var inputs := FillingPackets(17);
      && Pids(Requests(inputs)) == {0, 1, 2, 3, 4} && !Admitted(Requests(inputs))
      && InLastFour(PidStarts(Requests(inputs), 4), MMAP_BASE) && Key(4, MMAP_BASE) !in PacketRun(inputs).mmaps
  {
    FillingRequests(17);
    PacketsRunRequests(FillingPackets(17));
    FillingPids();
    FillingStep(16);
    SeventeenthRefused();
    LastRefused(Filling(17), Filling(16), Filling(17)[16]);
    assert Filling(17)[16].TableKey() == Key(4, MMAP_BASE);
  }
}
