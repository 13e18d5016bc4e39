/**
 Scan results, sorting and selection of drivers/network/wifi.c.
 */
module Wifi {

  const MAX_NETWORKS: nat := 16
  const MAX_SSID_LEN: nat := 32

  datatype Network = Network(ssid: string, signal: nat, secure: bool)

  datatype Report = Report(ssid: string, signal: int, secure: bool)
  {
    /** The name survives the copy into a fixed field with its terminator. */
    predicate Fits() { |ssid| < MAX_SSID_LEN }
  }

  function ClampSignal(signal: int): (r: nat)
    ensures 0 <= signal <= 100 ==> r == signal
    ensures signal < 0 ==> r == 0
    ensures signal > 100 ==> r == 100
  {
    if signal < 0 then 0 else if signal > 100 then 100 else signal
  }

  function CopyText(src: string): (r: string)
    ensures |src| < MAX_SSID_LEN ==> r == src
    ensures |src| >= MAX_SSID_LEN ==> |r| == 31 && r <= src
  {
    if |src| < MAX_SSID_LEN then src else src[..MAX_SSID_LEN - 1]
  }

  /** A report under the name the list can hold: names of 32 or more characters are cut. */
  function Shown(r: Report): (t: Report)
    ensures t.Fits() && (r.Fits() ==> t == r)
  {
    r.(ssid := CopyText(r.ssid))
  }

  function AllShown(rs: seq<Report>): (ts: seq<Report>)
    ensures AllFit(ts) && |ts| == |rs|
  {
    seq(|rs|, i requires 0 <= i < |rs| => Shown(rs[i]))
  }

  predicate AllFit(rs: seq<Report>) {
    forall i :: 0 <= i < |rs| ==> rs[i].Fits()
  }

  lemma ShownStep(rs: seq<Report>, r: Report)
    ensures AllShown(rs + [r]) == AllShown(rs) + [Shown(r)]
    ensures AllFit(rs) ==> AllShown(rs) == rs
  {
  }

  // ------------------------------------------------- what a list should contain

  /** The strongest clamped signal and the combined secure flag reported for a name. */
  function MaxSignal(rs: seq<Report>, ssid: string): (m: nat)
    ensures m <= 100
  {
    if rs == [] then 0
    else
      var rest, last := MaxSignal(rs[..|rs| - 1], ssid), rs[|rs| - 1];
      if last.ssid == ssid && ClampSignal(last.signal) > rest then ClampSignal(last.signal) else rest
  }

  predicate AnySecure(rs: seq<Report>, ssid: string) {
    exists i :: 0 <= i < |rs| && rs[i].ssid == ssid && rs[i].secure
  }

  /** MaxSignal is an upper bound that is reached. */
  lemma {:induction false} MaxSignalIsMax(rs: seq<Report>, ssid: string)
    ensures forall i :: 0 <= i < |rs| && rs[i].ssid == ssid ==> ClampSignal(rs[i].signal) <= MaxSignal(rs, ssid)
    ensures MaxSignal(rs, ssid) == 0
         || exists i :: 0 <= i < |rs| && rs[i].ssid == ssid && ClampSignal(rs[i].signal) == MaxSignal(rs, ssid)
  {
    if rs != [] {
      var front := rs[..|rs| - 1];
      MaxSignalIsMax(front, ssid);
      assert forall i :: 0 <= i < |front| ==> front[i] == rs[i];
      var last := rs[|rs| - 1];
      if MaxSignal(rs, ssid) != 0 {
        if MaxSignal(rs, ssid) == MaxSignal(front, ssid) {
          var i :| 0 <= i < |front| && front[i].ssid == ssid && ClampSignal(front[i].signal) == MaxSignal(front, ssid);
          assert rs[i].ssid == ssid;
        } else {
          assert last.ssid == ssid;
        }
      }
    }
  }

  function Entry(rs: seq<Report>, ssid: string): Network {
    Network(ssid, MaxSignal(rs, ssid), AnySecure(rs, ssid))
  }

  predicate Named(rs: seq<Report>, ssid: string) {
    exists i :: 0 <= i < |rs| && rs[i].ssid == ssid
  }

  /** Each entry sums up the reports for its name. */
  predicate Accurate(nets: seq<Network>, rs: seq<Report>) {
    forall i :: 0 <= i < |nets| ==> Named(rs, nets[i].ssid) && nets[i] == Entry(rs, nets[i].ssid)
  }

  predicate Listed(nets: seq<Network>, ssid: string) {
    exists i :: 0 <= i < |nets| && nets[i].ssid == ssid
  }

  /** Each reported name has exactly one entry, and that entry is accurate. */
  predicate Merges(nets: seq<Network>, rs: seq<Report>) {
    && Accurate(nets, rs)
    && (forall k :: 0 <= k < |rs| ==> Listed(nets, rs[k].ssid))
    && (forall i, j :: 0 <= i < j < |nets| ==> nets[i].ssid != nets[j].ssid)
  }

  // -------------------------------------------------------------- adding a report

  function Find(nets: seq<Network>, ssid: string, from: nat := 0): (r: int)
    requires from <= |nets|
    ensures r == -1 || from <= r < |nets|
    ensures r == -1 ==> forall i :: from <= i < |nets| ==> nets[i].ssid != ssid
    ensures r >= 0 ==> nets[r].ssid == ssid && forall i :: from <= i < r ==> nets[i].ssid != ssid
    decreases |nets| - from
  {
    if from == |nets| then -1 else if nets[from].ssid == ssid then from else Find(nets, ssid, from + 1)
  }

  function Strengthened(n: Network, r: Report): Network {
    Network(n.ssid, if ClampSignal(r.signal) > n.signal then ClampSignal(r.signal) else n.signal, n.secure || r.secure)
  }

  /** wifi_add_hardware_scan_result refuses nameless reports and any report once the list
      is full, even one that would only strengthen an entry. */
  predicate Accepts(nets: seq<Network>, r: Report) {
    r.ssid != "" && |nets| < MAX_NETWORKS
  }

  function Added(nets: seq<Network>, r: Report): (res: seq<Network>)
    ensures |nets| <= |res| <= |nets| + 1
  {
    if !Accepts(nets, r) then nets
    else
      var i := Find(nets, r.ssid);
      if i >= 0 then nets[i := Strengthened(nets[i], r)]
      else nets + [Network(CopyText(r.ssid), ClampSignal(r.signal), r.secure)]
  }

  lemma EntryStep(rs: seq<Report>, r: Report, ssid: string)
    ensures Entry(rs + [r], ssid)
         == if r.ssid == ssid then Strengthened(Entry(rs, ssid), r) else Entry(rs, ssid)
  {
    var rs' := rs + [r];
    assert rs'[..|rs'| - 1] == rs;
    assert AnySecure(rs', ssid) <==> AnySecure(rs, ssid) || (r.ssid == ssid && r.secure) by {
      assert forall i :: 0 <= i < |rs| ==> rs'[i] == rs[i];
      assert rs'[|rs|] == r;
    }
  }

  lemma {:induction false} UnnamedEntry(rs: seq<Report>, ssid: string)
    requires !Named(rs, ssid)
    ensures Entry(rs, ssid) == Network(ssid, 0, false)
  {
    if rs != [] {
      var front := rs[..|rs| - 1];
      assert forall i :: 0 <= i < |front| ==> front[i] == rs[i];
      UnnamedEntry(front, ssid);
    }
  }

  lemma NamedStep(rs: seq<Report>, r: Report, ssid: string)
    ensures Named(rs + [r], ssid) <==> Named(rs, ssid) || r.ssid == ssid
  {
    var rs' := rs + [r];
    assert forall i :: 0 <= i < |rs| ==> rs'[i] == rs[i];
    assert rs'[|rs|] == r;
  }

  /** An accepted report whose name fits keeps the list a merge of what was accepted. */
  lemma AddMerges(nets: seq<Network>, rs: seq<Report>, r: Report)
    requires Merges(nets, rs) && Accepts(nets, r) && r.Fits()
    ensures Merges(Added(nets, r), rs + [r])
  {
    hide Entry, Named, Merges;
    AddAccurate(nets, rs, r);
    AddListed(nets, rs, r);
  }

  lemma AddAccurate(nets: seq<Network>, rs: seq<Report>, r: Report)
    requires Merges(nets, rs) && Accepts(nets, r) && r.Fits()
    ensures Accurate(Added(nets, r), rs + [r])
  {
    hide Named, MaxSignal, AnySecure;
    var res := Added(nets, r);
    var at := Find(nets, r.ssid);
    forall i | 0 <= i < |res|
      ensures Named(rs + [r], res[i].ssid) && res[i] == Entry(rs + [r], res[i].ssid)
    {
      EntryStep(rs, r, res[i].ssid);
      NamedStep(rs, r, res[i].ssid);
      if at < 0 && i == |nets| {
        NotNamed(nets, rs, r.ssid);
        UnnamedEntry(rs, r.ssid);
      }
    }
  }

  lemma NotNamed(nets: seq<Network>, rs: seq<Report>, ssid: string)
    requires Merges(nets, rs) && Find(nets, ssid) < 0
    ensures !Named(rs, ssid)
  {
  }

  lemma AddListed(nets: seq<Network>, rs: seq<Report>, r: Report)
    requires Merges(nets, rs) && Accepts(nets, r) && r.Fits() && Accurate(Added(nets, r), rs + [r])
    ensures Merges(Added(nets, r), rs + [r])
  {
    hide Accurate;
    var res, rs' := Added(nets, r), rs + [r];
    forall k | 0 <= k < |rs'|
      ensures Listed(res, rs'[k].ssid)
    {
      if k < |rs| {
        var i :| 0 <= i < |nets| && nets[i].ssid == rs[k].ssid;
        assert res[i].ssid == nets[i].ssid;
      } else {
        var at := Find(nets, r.ssid);
        assert res[if at < 0 then |nets| else at].ssid == r.ssid;
      }
    }
  }

  /** A merge has as many entries as there are names. */
  lemma {:induction false} MergeSize(nets: seq<Network>, names: set<string>)
    requires forall i, j :: 0 <= i < j < |nets| ==> nets[i].ssid != nets[j].ssid
    requires forall i :: 0 <= i < |nets| ==> nets[i].ssid in names
    requires forall s :: s in names ==> Listed(nets, s)
    ensures |nets| == |names|
  {
    if nets == [] {
      assert names == {};
    } else {
      var last := nets[|nets| - 1].ssid;
      var front := nets[..|nets| - 1];
      forall s | s in names - {last}
        ensures Listed(front, s)
      {
        var i :| 0 <= i < |nets| && nets[i].ssid == s;
        assert front[i].ssid == s;
      }
      MergeSize(front, names - {last});
    }
  }

  function Names(rs: seq<Report>): set<string> {
    set i | 0 <= i < |rs| :: rs[i].ssid
  }

  /** With fewer than 16 distinct names so far, no named report is refused. */
  lemma RoomForAll(nets: seq<Network>, rs: seq<Report>, r: Report)
    requires Merges(nets, rs) && r.ssid != ""
    ensures Accepts(nets, r) <==> |Names(rs)| < MAX_NETWORKS
  {
    hide Entry;
    forall i | 0 <= i < |nets|
      ensures nets[i].ssid in Names(rs)
    {
      assert Named(rs, nets[i].ssid);
    }
    MergeSize(nets, Names(rs));
  }

  // ---------------------------------------------------------- whole scans

  /** A report that leaves the list a merge of the names it can hold.  While there is room,
      only a cut name that is listed already does harm: it is compared in full, not found,
      and listed twice.  Afterwards a report must say nothing new about a listed name. */
  predicate Kept(ts: seq<Report>, r: Report) {
    var t := Shown(r);
    if |Names(ts)| < MAX_NETWORKS then r.Fits() || !Named(ts, t.ssid)
    else Named(ts, t.ssid) && Entry(ts + [t], t.ssid) == Entry(ts, t.ssid)
  }

  /** The exact condition for one report, on any list that is a merge so far. */
  lemma AddMergesIff(nets: seq<Network>, ts: seq<Report>, r: Report)
    requires Merges(nets, ts) && AllFit(ts) && r.ssid != ""
    ensures Merges(Added(nets, r), ts + [Shown(r)]) <==> Kept(ts, r)
  {
    hide Merges, Entry, Named, Added;
    RoomForAll(nets, ts, r);
    if !Accepts(nets, r) {
      RefusedUnchanged(nets, r);
      FullMergesIff(nets, ts, Shown(r));
    } else if r.Fits() {
      AddMerges(nets, ts, r);
    } else {
      MergedNames(nets, ts);
      LongAppends(nets, ts, r);
      if Named(ts, Shown(r).ssid) {
        NamedListed(nets, ts, Shown(r).ssid);
        AppendTwice(nets, ts + [Shown(r)], Added(nets, r)[|nets|]);
      } else {
        AddsShown(nets, ts, r);
        AddMerges(nets, ts, Shown(r));
      }
    }
  }

  lemma RefusedUnchanged(nets: seq<Network>, r: Report)
    requires !Accepts(nets, r)
    ensures Added(nets, r) == nets
  {
  }

  /** A list never holds a name of 32 or more characters, so such a report is appended. */
  lemma LongAppends(nets: seq<Network>, ts: seq<Report>, r: Report)
    requires NamesFrom(nets, ts) && AllFit(ts) && !r.Fits() && Accepts(nets, r)
    ensures Added(nets, r) == nets + [Network(Shown(r).ssid, ClampSignal(r.signal), r.secure)]
  {
    forall i | 0 <= i < |nets|
      ensures |nets[i].ssid| < MAX_SSID_LEN
    {
      assert Named(ts, nets[i].ssid);
      var k :| 0 <= k < |ts| && ts[k].ssid == nets[i].ssid;
      assert ts[k].Fits();
    }
  }

  lemma MergedNames(nets: seq<Network>, ts: seq<Report>)
    requires Merges(nets, ts)
    ensures NamesFrom(nets, ts) && Distinct(nets)
  {
  }

  predicate NamesFrom(nets: seq<Network>, ts: seq<Report>) {
    forall i :: 0 <= i < |nets| ==> Named(ts, nets[i].ssid)
  }

  lemma AppendTwice(nets: seq<Network>, ts: seq<Report>, n: Network)
    requires Listed(nets, n.ssid)
    ensures !Distinct(nets + [n]) && !Merges(nets + [n], ts)
  {
    var i :| 0 <= i < |nets| && nets[i].ssid == n.ssid;
    var res := nets + [n];
    assert res[i].ssid == res[|nets|].ssid;
  }

  /** A cut name that is not listed yet is appended just as if it had been reported cut. */
  lemma AddsShown(nets: seq<Network>, ts: seq<Report>, r: Report)
    requires Merges(nets, ts) && AllFit(ts) && !r.Fits() && Accepts(nets, r) && !Named(ts, Shown(r).ssid)
    ensures Accepts(nets, Shown(r)) && Added(nets, Shown(r)) == Added(nets, r)
  {
    LongAppends(nets, ts, r);
  }

  predicate Distinct(nets: seq<Network>) {
    forall i, j :: 0 <= i < j < |nets| ==> nets[i].ssid != nets[j].ssid
  }

  /** An unchanged list still merges one more report exactly when nothing new was said. */
  lemma FullMergesIff(nets: seq<Network>, rs: seq<Report>, r: Report)
    requires Merges(nets, rs)
    ensures Merges(nets, rs + [r]) <==> Named(rs, r.ssid) && Entry(rs + [r], r.ssid) == Entry(rs, r.ssid)
  {
    hide Entry, Named;
    var rs' := rs + [r];
    assert rs'[|rs|] == r && forall k :: 0 <= k < |rs| ==> rs'[k] == rs[k];
    forall i | 0 <= i < |nets|
      ensures Named(rs', nets[i].ssid) && (nets[i].ssid != r.ssid ==> Entry(rs', nets[i].ssid) == nets[i])
    {
      EntryStep(rs, r, nets[i].ssid);
      NamedStep(rs, r, nets[i].ssid);
    }
    if Named(rs, r.ssid) {
      NamedListed(nets, rs, r.ssid);
    }
    if Merges(nets, rs') {
      var i :| 0 <= i < |nets| && nets[i].ssid == rs'[|rs|].ssid;
      assert nets[i] == Entry(rs', r.ssid);
    }
  }

  lemma NamedListed(nets: seq<Network>, rs: seq<Report>, ssid: string)
    requires Merges(nets, rs) && Named(rs, ssid)
    ensures Listed(nets, ssid)
  {
    var k :| 0 <= k < |rs| && rs[k].ssid == ssid;
  }

  /** Whatever happens, entries never say more than was reported. */
  predicate Supported(nets: seq<Network>, ts: seq<Report>) {
    forall i :: 0 <= i < |nets| ==>
      && Named(ts, nets[i].ssid)
      && nets[i].signal <= Entry(ts, nets[i].ssid).signal
      && (nets[i].secure ==> Entry(ts, nets[i].ssid).secure)
  }

  lemma SupportedStep(nets: seq<Network>, ts: seq<Report>, r: Report)
    requires Supported(nets, ts) && AllFit(ts)
    ensures Supported(nets, ts + [Shown(r)]) && Supported(Added(nets, r), ts + [Shown(r)])
  {
    hide MaxSignal, AnySecure, Named;
    var res, t := Added(nets, r), Shown(r);
    forall i | 0 <= i < |nets|
      ensures Named(ts + [t], nets[i].ssid)
      ensures Entry(ts + [t], nets[i].ssid)
           == if t.ssid == nets[i].ssid then Strengthened(Entry(ts, nets[i].ssid), t) else Entry(ts, nets[i].ssid)
    {
      EntryStep(ts, t, nets[i].ssid);
      NamedStep(ts, t, nets[i].ssid);
    }
    if Accepts(nets, r) {
      EntryStep(ts, t, t.ssid);
      NamedStep(ts, t, t.ssid);
      if !r.Fits() {
        assert NamesFrom(nets, ts);
        LongAppends(nets, ts, r);
      }
    }
  }

  /** A supported list that merges one report more already merged without it. */
  lemma MergesBefore(nets: seq<Network>, ts: seq<Report>, t: Report)
    requires Supported(nets, ts) && Merges(nets, ts + [t])
    ensures Merges(nets, ts)
  {
    hide MaxSignal, AnySecure, Named;
    var ts' := ts + [t];
    forall i | 0 <= i < |nets|
      ensures nets[i] == Entry(ts, nets[i].ssid)
    {
      EntryStep(ts, t, nets[i].ssid);
    }
    forall k | 0 <= k < |ts|
      ensures Listed(nets, ts[k].ssid)
    {
      assert ts'[k] == ts[k];
    }
  }

  /** Every report of the scan was kept. */
  predicate Lossless(rs: seq<Report>) {
    forall k :: 0 <= k < |rs| ==> Kept(AllShown(rs[..k]), rs[k])
  }

  lemma LosslessStep(rs: seq<Report>, r: Report)
    ensures Lossless(rs + [r]) <==> Lossless(rs) && Kept(AllShown(rs), r)
  {
    hide Kept, AllShown;
    var rs' := rs + [r];
    assert rs'[..|rs|] == rs && rs'[|rs|] == r;
    forall k | 0 <= k < |rs|
      ensures rs'[..k] == rs[..k] && rs'[k] == rs[k]
    {
    }
  }

  /** What a list has to do with all the reports of its scan: it is a merge of what it can
      hold exactly if every report was kept, and while it has room only double names are
      in the way of that. */
  predicate Represents(nets: seq<Network>, rs: seq<Report>) {
    var ts := AllShown(rs);
    && Supported(nets, ts)
    && (Merges(nets, ts) <==> Lossless(rs))
    && (|nets| < MAX_NETWORKS && Distinct(nets) ==> Merges(nets, ts))
  }

  /** Names that are listed stay listed in their places. */
  lemma AddedNames(nets: seq<Network>, r: Report)
    ensures forall i :: 0 <= i < |nets| ==> Added(nets, r)[i].ssid == nets[i].ssid
    ensures Distinct(Added(nets, r)) ==> Distinct(nets)
  {
    var res := Added(nets, r);
    assert forall i :: 0 <= i < |nets| ==> res[i].ssid == nets[i].ssid;
  }

  lemma RepresentsStep(nets: seq<Network>, rs: seq<Report>, r: Report)
    requires Represents(nets, rs) && r.ssid != ""
    ensures Represents(Added(nets, r), rs + [r])
  {
    hide Supported, Kept, Lossless, Accurate, Added, AllShown, Distinct;
    var ts, t := AllShown(rs), Shown(r);
    ShownStep(rs, r);
    LosslessStep(rs, r);
    SupportedStep(nets, ts, r);
    AddedNames(nets, r);
    if Merges(nets, ts) {
      AddMergesIff(nets, ts, r);
      RoomForAll(nets, ts, r);
      if Accepts(nets, r) && Distinct(Added(nets, r)) {
        StillDistinct(nets, ts, r);
      }
    } else if |nets| >= MAX_NETWORKS {
      RefusedUnchanged(nets, r);
      if Merges(nets, ts + [t]) {
        MergesBefore(nets, ts, t);
      }
    } else if Merges(Added(nets, r), ts + [t]) {
      MergedNames(Added(nets, r), ts + [t]);
    }
  }

  /** With room left, a list without double names has kept the report. */
  lemma StillDistinct(nets: seq<Network>, ts: seq<Report>, r: Report)
    requires Merges(nets, ts) && AllFit(ts) && Accepts(nets, r) && Distinct(Added(nets, r))
    ensures Kept(ts, r)
  {
    hide Entry, Named, Accurate;
    RoomForAll(nets, ts, r);
    if !r.Fits() && Named(ts, Shown(r).ssid) {
      MergedNames(nets, ts);
      LongAppends(nets, ts, r);
      NamedListed(nets, ts, Shown(r).ssid);
      AppendTwice(nets, ts, Added(nets, r)[|nets|]);
    }
  }

  /** Reports with a name; the others are ignored. */
  function Spoken(rs: seq<Report>): (r: seq<Report>)
    ensures forall i :: 0 <= i < |r| ==> r[i].ssid != "" && r[i] in rs
  {
    if rs == [] then []
    else
      var front, last := Spoken(rs[..|rs| - 1]), rs[|rs| - 1];
      if last.ssid == "" then front else front + [last]
  }

  /** The list after a whole scan, before sorting. */
  function Scan(rs: seq<Report>): seq<Network> {
    if rs == [] then [] else Added(Scan(rs[..|rs| - 1]), rs[|rs| - 1])
  }

  lemma {:induction false} ScanRepresents(rs: seq<Report>)
    ensures Represents(Scan(rs), Spoken(rs))
  {
    if rs == [] {
      NothingReported();
    } else {
      hide Represents;
      var front, last := rs[..|rs| - 1], rs[|rs| - 1];
      ScanRepresents(front);
      if last.ssid != "" {
        RepresentsStep(Scan(front), Spoken(front), last);
      }
    }
  }

  /** For every scan: the list merges all that was reported, under names as it can hold
      them, if and only if no cut name was reported twice while there was room and no
      report said something new after the sixteenth name. */
  lemma ScanMergesIff(rs: seq<Report>)
    ensures Merges(Scan(rs), AllShown(Spoken(rs))) <==> Lossless(Spoken(rs))
  {
    hide Merges, Lossless;
    ScanRepresents(rs);
  }

  lemma FewNamesLossless(rs: seq<Report>)
    requires AllFit(rs) && |Names(rs)| < MAX_NETWORKS
    ensures Lossless(rs)
  {
    forall k | 0 <= k < |rs|
      ensures Kept(AllShown(rs[..k]), rs[k])
    {
      ShownStep(rs[..k], rs[k]);
      assert Names(rs[..k]) <= Names(rs);
      SubsetSize(Names(rs[..k]), Names(rs));
    }
  }

  lemma {:induction false} SubsetSize(a: set<string>, b: set<string>)
    requires a <= b
    ensures |a| <= |b|
    decreases |a|
  {
    if x :| x in a {
      SubsetSize(a - {x}, b - {x});
    }
  }

  /** In particular, with fewer than 16 distinct names that fit nothing is ever lost. */
  lemma ScanMergesAll(rs: seq<Report>)
    requires AllFit(rs) && |Names(Spoken(rs))| < MAX_NETWORKS
    ensures Merges(Scan(rs), Spoken(rs))
  {
    hide Merges, Lossless;
    FewNamesLossless(Spoken(rs));
    ScanMergesIff(rs);
    ShownStep(Spoken(rs), Report("", 0, false));
  }

  /** A legal name of 32 octets does not fit its field with the terminator: reported twice,
      it is listed twice under one cut name. */
  lemma LongNameIsListedTwice(r: Report, r': Report)
    requires !r.Fits() && r'.ssid == r.ssid
    ensures var nets := Scan([r, r']);
            |nets| == 2 && nets[0].ssid == nets[1].ssid && !Merges(nets, AllShown([r, r']))
  {
    assert [r, r'][..1] == [r] && [r][..0] == [];
    assert Scan([r]) == Added(Scan([]), r) && Scan([r, r']) == Added(Scan([r]), r');
    AppendTwice(Scan([r]), AllShown([r, r']), Scan([r, r'])[1]);
  }

  predicate DistinctNames(rs: seq<Report>) {
    forall i, j :: 0 <= i < j < |rs| ==> rs[i].ssid != rs[j].ssid
  }

  lemma {:induction false} DistinctNamesCount(rs: seq<Report>)
    requires DistinctNames(rs)
    ensures |Names(rs)| == |rs|
  {
    if rs != [] {
      var front, last := rs[..|rs| - 1], rs[|rs| - 1];
      DistinctNamesCount(front);
      assert Names(rs) == Names(front) + {last.ssid} by {
        assert forall i :: 0 <= i < |front| ==> front[i] == rs[i];
      }
      assert last.ssid !in Names(front);
    }
  }

  lemma {:induction false} AllSpoken(rs: seq<Report>)
    requires forall i :: 0 <= i < |rs| ==> rs[i].ssid != ""
    ensures Spoken(rs) == rs
  {
    if rs != [] {
      AllSpoken(rs[..|rs| - 1]);
      assert rs == rs[..|rs| - 1] + [rs[|rs| - 1]];
    }
  }

  /** The failing family, reached from an empty list: sixteen names, then a stronger
      report of one of them, and the finished list is no merge of what was reported. */
  lemma SeventeenthReportIsLost(rs: seq<Report>, r: Report, i: nat)
    requires |rs| == MAX_NETWORKS && DistinctNames(rs) && i < |rs|
    requires forall k :: 0 <= k < |rs| ==> rs[k].Fits() && rs[k].ssid != ""
    requires r.ssid == rs[i].ssid && ClampSignal(r.signal) > MaxSignal(rs, r.ssid)
    ensures !Merges(Scan(rs + [r]), rs + [r])
  {
    hide Merges, Lossless, AllShown;
    var rs' := rs + [r];
    assert forall k :: 0 <= k < |rs'| ==> rs'[k].Fits() && rs'[k].ssid != "";
    AllSpoken(rs');
    ShownStep(rs, r);
    ShownStep(rs', r);
    ScanMergesIff(rs');
    LosslessStep(rs, r);
    DistinctNamesCount(rs);
    EntryStep(rs, r, r.ssid);
  }

  /** One such scan: names a to p at signal 10, then a again at 90. */
  lemma LostUpdate()
    ensures var rs := seq(MAX_NETWORKS, i requires 0 <= i < MAX_NETWORKS =>
              Report([(i + 97) as char], 10, false)) + [Report("a", 90, false)];
            !Merges(Scan(rs), rs)
  {
    hide Merges, MaxSignal;
    var rs := seq(MAX_NETWORKS, i requires 0 <= i < MAX_NETWORKS => Report([(i + 97) as char], 10, false));
    var r := Report("a", 90, false);
    assert rs[0].ssid == "a";
    forall i, j | 0 <= i < j < |rs|
      ensures rs[i].ssid != rs[j].ssid
    {
      assert rs[i].ssid[0] == (i + 97) as char && rs[j].ssid[0] == (j + 97) as char;
    }
    MaxSignalIsMax(rs, "a");
    SeventeenthReportIsLost(rs, r, 0);
  }

  // -------------------------------------------------------------------- sorting

  predicate Sorted(nets: seq<Network>) {
    forall i, j :: 0 <= i < j < |nets| ==> nets[i].signal >= nets[j].signal
  }

  function Swapped(nets: seq<Network>, i: nat, j: nat): (r: seq<Network>)
    requires i < j < |nets|
  {
    nets[i := nets[j]][j := nets[i]]
  }

  /** A merge stays a merge when entries change places. */
  lemma SwapMerges(nets: seq<Network>, rs: seq<Report>, i: nat, j: nat)
    requires i < j < |nets| && Merges(nets, rs)
    ensures Merges(Swapped(nets, i, j), rs)
  {
    hide Entry, Named;
    var res := Swapped(nets, i, j);
    forall k | 0 <= k < |rs|
      ensures Listed(res, rs[k].ssid)
    {
      var m :| 0 <= m < |nets| && nets[m].ssid == rs[k].ssid;
      var m' := if m == i then j else if m == j then i else m;
      assert res[m'] == nets[m];
    }
  }

  /** Order does not matter to what a list represents. */
  lemma SwapRepresents(nets: seq<Network>, rs: seq<Report>, i: nat, j: nat)
    requires i < j < |nets| && Represents(nets, rs)
    ensures Represents(Swapped(nets, i, j), rs)
  {
    hide Merges, Lossless, Named, MaxSignal, AnySecure, AllShown;
    var res, ts := Swapped(nets, i, j), AllShown(rs);
    assert Swapped(res, i, j) == nets;
    if Merges(nets, ts) {
      SwapMerges(nets, ts, i, j);
    }
    if Merges(res, ts) {
      SwapMerges(res, ts, i, j);
    }
    if Distinct(res) {
      SwapDistinct(res, i, j);
    }
  }

  lemma SwapDistinct(nets: seq<Network>, i: nat, j: nat)
    requires i < j < |nets| && Distinct(nets)
    ensures Distinct(Swapped(nets, i, j))
  {
  }

  /** The first `i` entries are at least as strong as everything after them. */
  predicate Leads(nets: seq<Network>, i: nat) {
    forall a, b :: 0 <= a < i && a < b < |nets| ==> nets[a].signal >= nets[b].signal
  }

  /** Entry `i` is the strongest of entries `i` to `j - 1`. */
  predicate Best(nets: seq<Network>, i: nat, j: nat)
    requires i < |nets|
  {
    forall b :: i < b < j && b < |nets| ==> nets[i].signal >= nets[b].signal
  }

  lemma SwapStep(nets: seq<Network>, i: nat, j: nat)
    requires i < j < |nets| && Leads(nets, i) && Best(nets, i, j) && nets[j].signal > nets[i].signal
    ensures var r := Swapped(nets, i, j);
            |r| == |nets| && Leads(r, i) && Best(r, i, j + 1) && multiset(r) == multiset(nets)
  {
  }

  lemma BestStart(nets: seq<Network>, i: nat)
    requires i < |nets|
    ensures Best(nets, i, i + 1)
  {
  }

  lemma BestStep(nets: seq<Network>, i: nat, j: nat)
    requires i < j < |nets| && Best(nets, i, j) && nets[j].signal <= nets[i].signal
    ensures Best(nets, i, j + 1)
  {
  }

  lemma BestLeads(nets: seq<Network>, i: nat)
    requires i < |nets| && Leads(nets, i) && Best(nets, i, |nets|)
    ensures Leads(nets, i + 1)
  {
  }

  // ------------------------------------------------------------------ selection

  /** wifi_set_default_selection. */
  function DefaultSelection(nets: seq<Network>, connected: bool, ssid: string): (r: int)
    ensures -1 <= r < |nets|
    ensures r == -1 <==> nets == []
    ensures connected && ssid != "" && Find(nets, ssid) >= 0 ==> nets[r].ssid == ssid
    ensures nets != [] && !(connected && ssid != "" && Find(nets, ssid) >= 0) ==> r == 0
  {
    if nets == [] then -1
    else if connected && ssid != "" && Find(nets, ssid) >= 0 then Find(nets, ssid)
    else 0
  }

  lemma NothingReported()
    ensures Represents([], [])
  {
  }

  class Adapter {
    const networks: array<Network>
    var adapterPresent: bool
    var connected: bool
    var scanReady: bool
    var visibleCount: nat
    var selectedNetwork: int
    var connectedSignal: nat
    var connectedSsid: string
    /** The named reports since the scan began, accepted or not. */
    ghost var reported: seq<Report>

    ghost predicate Valid()
      reads this, networks
    {
      && networks.Length == MAX_NETWORKS && visibleCount <= MAX_NETWORKS
      && -1 <= selectedNetwork < visibleCount
      && Represents(networks[..visibleCount], reported)
    }

    ghost function Visible(): seq<Network>
      requires visibleCount <= networks.Length
      reads this, networks
    {
      networks[..visibleCount]
    }

    constructor (adapterPresent: bool)
      ensures Valid() && Visible() == [] && reported == [] && fresh(networks)
    {
      networks := new Network[MAX_NETWORKS](_ => Network("", 0, false));
      this.adapterPresent := adapterPresent;
      connected, scanReady, visibleCount, selectedNetwork := false, false, 0, -1;
      connectedSignal, connectedSsid, reported := 0, "", [];
      new;
      NothingReported();
    }

    method BeginScan()
      requires Valid()
      modifies `visibleCount, `selectedNetwork, `scanReady, `reported, networks
      ensures Valid() && Visible() == [] && reported == [] && selectedNetwork == -1 && !scanReady
    {
      visibleCount, selectedNetwork, scanReady, reported := 0, -1, false, [];
      for i := 0 to MAX_NETWORKS
        invariant visibleCount == 0 && selectedNetwork == -1 && !scanReady && reported == []
      {
        networks[i] := Network("", 0, false);
      }
      NothingReported();
    }

    method SetDefaultSelection()
      requires networks.Length == MAX_NETWORKS && visibleCount <= MAX_NETWORKS
      modifies `selectedNetwork
      ensures selectedNetwork == DefaultSelection(Visible(), connected, connectedSsid)
    {
      if visibleCount <= 0 {
        selectedNetwork := -1;
        return;
      }
      if connected && connectedSsid != "" {
        for i := 0 to visibleCount
          invariant Find(Visible(), connectedSsid) == Find(Visible(), connectedSsid, i)
        {
          if networks[i].ssid == connectedSsid {
            selectedNetwork := i;
            return;
          }
        }
      }
      selectedNetwork := 0;
    }

    method ReportConnected(ssid: string, signal: int)
      requires Valid()
      modifies `connected, `connectedSignal, `connectedSsid, `selectedNetwork
      ensures Valid() && connected && connectedSsid == CopyText(ssid) && connectedSignal == ClampSignal(signal)
      ensures selectedNetwork == DefaultSelection(Visible(), connected, connectedSsid)
    {
      hide Represents;
      connected, connectedSignal, connectedSsid := true, ClampSignal(signal), CopyText(ssid);
      SetDefaultSelection();
    }

    method ReportDisconnected()
      requires Valid()
      modifies `connected, `connectedSignal, `connectedSsid, `selectedNetwork
      ensures Valid() && !connected && connectedSsid == "" && connectedSignal == 0
      ensures selectedNetwork == if visibleCount == 0 then -1 else 0
    {
      hide Represents;
      connected, connectedSignal, connectedSsid := false, 0, "";
      SetDefaultSelection();
    }

    method SelectNetwork(index: int)
      requires Valid()
      modifies `selectedNetwork
      ensures Valid()
      ensures selectedNetwork == if adapterPresent && scanReady && 0 <= index < visibleCount
                                 then index else old(selectedNetwork)
    {
      hide Represents;
      var count := if adapterPresent && scanReady && visibleCount > 0 then visibleCount else 0;
      if index < 0 || index >= count {
        return;
      }
      selectedNetwork := index;
    }

    /** wifi_add_hardware_scan_result. */
    method AddResult(r: Report, isConnected: bool) returns (ok: bool)
      requires Valid()
      modifies this, networks
      ensures Valid()
      ensures Visible() == Added(old(Visible()), r)
      ensures ok == Accepts(old(Visible()), r)
      ensures reported == if r.ssid != "" then old(reported) + [r] else old(reported)
      ensures ok && isConnected ==> connected && selectedNetwork == DefaultSelection(Visible(), true, CopyText(r.ssid))
      ensures scanReady == old(scanReady) && adapterPresent == old(adapterPresent)
    {
      hide Represents;
      ghost var before, rs := Visible(), reported;
      if r.ssid != "" {
        reported := reported + [r];
        RepresentsStep(before, rs, r);
      }
      if r.ssid == "" || visibleCount >= MAX_NETWORKS {
        return false;
      }
      MergeInto(r);
      if isConnected {
        ReportConnected(r.ssid, r.signal);
      }
      return true;
    }

    /** Strengthen the entry of that name, or append one. */
    method MergeInto(r: Report)
      requires networks.Length == MAX_NETWORKS && visibleCount < MAX_NETWORKS && r.ssid != ""
      modifies `visibleCount, networks
      ensures old(visibleCount) <= visibleCount <= MAX_NETWORKS
      ensures Visible() == Added(old(Visible()), r)
    {
      ghost var before := Visible();
      var at := FindVisible(r.ssid);
      if at >= 0 {
        if ClampSignal(r.signal) > networks[at].signal {
          networks[at] := networks[at].(signal := ClampSignal(r.signal));
        }
        if r.secure {
          networks[at] := networks[at].(secure := true);
        }
      } else {
        networks[visibleCount] := Network(CopyText(r.ssid), ClampSignal(r.signal), r.secure);
        visibleCount := visibleCount + 1;
      }
      assert Visible() == Added(before, r);
    }

    method FindVisible(ssid: string) returns (at: int)
      requires networks.Length == MAX_NETWORKS && visibleCount <= MAX_NETWORKS
      ensures at == Find(Visible(), ssid)
    {
      for i := 0 to visibleCount
        invariant Find(Visible(), ssid) == Find(Visible(), ssid, i)
      {
        if networks[i].ssid == ssid {
          return i;
        }
      }
      return -1;
    }

    method Exchange(i: nat, j: nat)
      requires i < j < visibleCount <= networks.Length
      modifies networks
      ensures Visible() == Swapped(old(Visible()), i, j)
    {
      var tmp := networks[i];
      networks[i] := networks[j];
      networks[j] := tmp;
    }

    /** One pass of the exchange sort: bring the strongest of the rest to place `i`. */
    method SortPass(i: nat, ghost rs: seq<Report>)
      requires networks.Length == MAX_NETWORKS && i < visibleCount <= MAX_NETWORKS && Leads(Visible(), i)
      modifies networks
      ensures Leads(Visible(), i + 1) && multiset(Visible()) == multiset(old(Visible()))
      ensures Represents(old(Visible()), rs) ==> Represents(Visible(), rs)
    {
      hide Represents, Leads, Best, Swapped;
      BestStart(Visible(), i);
      for j := i + 1 to visibleCount
        invariant Leads(Visible(), i) && Best(Visible(), i, j)
        invariant multiset(Visible()) == multiset(old(Visible()))
        invariant Represents(old(Visible()), rs) ==> Represents(Visible(), rs)
      {
        ghost var before := Visible();
        if networks[j].signal > networks[i].signal {
          SwapStep(before, i, j);
          if Represents(before, rs) {
            SwapRepresents(before, rs, i, j);
          }
          Exchange(i, j);
        } else {
          BestStep(before, i, j);
        }
      }
      BestLeads(Visible(), i);
    }

    /** wifi_sort_visible_networks: strongest first, same entries. */
    method SortVisible(ghost rs: seq<Report>)
      requires networks.Length == MAX_NETWORKS && visibleCount <= MAX_NETWORKS
      modifies networks
      ensures Sorted(Visible()) && multiset(Visible()) == multiset(old(Visible()))
      ensures Represents(old(Visible()), rs) ==> Represents(Visible(), rs)
    {
      hide Represents;
      for i := 0 to visibleCount
        invariant Leads(Visible(), i) && multiset(Visible()) == multiset(old(Visible()))
        invariant Represents(old(Visible()), rs) ==> Represents(Visible(), rs)
      {
        SortPass(i, rs);
      }
    }

    /** wifi_finish_hardware_scan. */
    method FinishScan()
      requires Valid()
      modifies `scanReady, `selectedNetwork, networks
      ensures Valid() && scanReady
      ensures Sorted(Visible()) && multiset(Visible()) == multiset(old(Visible()))
      ensures selectedNetwork == DefaultSelection(Visible(), connected, connectedSsid)
      ensures Merges(Visible(), AllShown(reported)) <==> Lossless(reported)
      ensures AllFit(reported) && |Names(reported)| < MAX_NETWORKS ==> Merges(Visible(), reported)
    {
      hide Merges, Lossless, Supported;
      SortVisible(reported);
      scanReady := true;
      SetDefaultSelection();
      if AllFit(reported) && |Names(reported)| < MAX_NETWORKS {
        FewNamesLossless(reported);
        ShownStep(reported, Report("", 0, false));
      }
    }
  }
}
