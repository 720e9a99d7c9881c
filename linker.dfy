/** The tree-linking pass of ScanDevices: every device looks for the nearest
    path above its own that is also a device, becomes that device's child,
    and is appended to the flat result.

    The loop of the source strips the last segment of the path once per
    segment, down to and including the first one; for a path of one segment
    that last step strips nothing, so the device finds itself and becomes its
    own parent. `SearchUp` is that loop with its lowest segment as a
    parameter: `FindParentAsWritten` runs it down to the first segment, as
    the source does, and `SelfParentAsWritten` shows the consequence;
    `FindParent` stops before the first segment, which is what the pass
    evidently intends and agrees with the source on every path of two
    segments or more (`AsWrittenAgreesWhenNested`). The pass itself,
    `LinkTree`, takes the lowest segment too: with 0 it is the pass as
    written, which links every top-level device to itself
    (`AsWrittenSelfLinked`) and every deeper one as the corrected pass does
    (`AsWrittenNested`); with 1 it builds a forest (`LinkedByIsForest`). */
module Linker {
  import opened Optional
  import opened Strings
  import opened Paths
  import opened Devices

  /** The paths the corrected search looks up for `p`, nearest first: `p`
      with its last segment stripped, then with the last two stripped, and
      so on until only the first segment is left. The source's loop looks up
      one path more (`CandidatesAsWritten`). */
  function Candidates(p: string): (cs: seq<string>)
    ensures |cs| == Depth(p) - 1
  {
    var parts := Split(p);
    seq(|parts| - 1, t requires 0 <= t < |parts| - 1 => Join(parts[..|parts| - 1 - t]))
  }

  /** The candidates are exactly the ancestors of the path ... */
  lemma CandidatesAreAncestors(p: string, a: string)
    ensures a in Candidates(p) <==> IsAncestor(a, p)
  {
    var parts := Split(p);
    var n := |parts|;
    var cs := Candidates(p);
    if a in cs {
      var t :| 0 <= t < n - 1 && cs[t] == a;
      CandidateAt(p, n - 1 - t);
      PrefixJoinIsAncestor(p, n - 1 - t);
    }
    if IsAncestor(a, p) {
      AncestorIsPrefixJoin(a, p);
      CandidateAt(p, Depth(a));
      assert cs[n - 1 - Depth(a)] == a;
    }
  }

  /** ... and they come nearest first: each is longer than the next. */
  lemma CandidatesNearestFirst(p: string, s: nat, t: nat)
    requires s < t < |Candidates(p)|
    ensures |Candidates(p)[t]| < |Candidates(p)[s]|
  {
    var parts := Split(p);
    var n := |parts|;
    PrefixJoinLonger(parts, n - 1 - t, n - 1 - s);
  }

  /** The candidate looked up after stripping all but `i` segments. */
  lemma CandidateAt(p: string, i: nat)
    requires 1 <= i < Depth(p)
    ensures Candidates(p)[Depth(p) - 1 - i] == Join(Split(p)[..i])
  {
  }

  /** One step of the linking loop: stripping "/" and the segment at `i`
      from the join of the first i + 1 segments leaves the join of the first
      i; at the first segment nothing is stripped. */
  lemma StripStep(parts: seq<string>, i: nat)
    requires i < |parts|
    ensures TrimSuffix(Join(parts[..i + 1]), "/" + parts[i]) == if i >= 1 then Join(parts[..i]) else parts[0]
  {
    if i >= 1 {
      assert parts[..i + 1][..i] == parts[..i];
      assert Join(parts[..i + 1]) == Join(parts[..i]) + ("/" + parts[i]);
      TrimSuffixOfAppend(Join(parts[..i]), "/" + parts[i]);
    } else {
      assert Join(parts[..1]) == parts[0];
    }
  }

  /** One turn of a lookup loop at segment `i`: the stripped path, and
      whether the lookup stops there or goes on below. */
  lemma LookupStep(parts: seq<string>, i: nat, lo: nat, keys: set<string>)
    requires lo <= i < |parts|
    ensures TrimSuffix(Join(parts[..i + 1]), "/" + parts[i]) == Stripped(parts, i)
    ensures i >= 1 ==> Stripped(parts, i) == Join(parts[..i])
    ensures Stripped(parts, i) in keys ==> Lookup(parts, i, lo, keys) == Some(Stripped(parts, i))
    ensures Stripped(parts, i) !in keys ==> Lookup(parts, i, lo, keys) == Lookup(parts, i - 1, lo, keys)
  {
    StripStep(parts, i);
  }

  /** The same turn, on the path the loop holds: strip, then look up. */
  lemma SearchStep(parts: seq<string>, i: nat, lo: nat, keys: set<string>, cur: string)
    requires lo <= i < |parts| && cur == Join(parts[..i + 1])
    ensures TrimSuffix(cur, "/" + parts[i]) in keys ==> Lookup(parts, i, lo, keys) == Some(TrimSuffix(cur, "/" + parts[i]))
    ensures TrimSuffix(cur, "/" + parts[i]) !in keys ==> Lookup(parts, i, lo, keys) == Lookup(parts, i - 1, lo, keys)
    ensures i >= 1 ==> TrimSuffix(cur, "/" + parts[i]) == Join(parts[..i])
  {
    LookupStep(parts, i, lo, keys);
  }

  /** The index of the first of `cs` that is in `keys`, or |cs| if none is. */
  function FirstIn(cs: seq<string>, keys: set<string>): (k: nat)
    ensures k <= |cs|
    ensures forall j :: 0 <= j < k ==> cs[j] !in keys
    ensures k < |cs| ==> cs[k] in keys
  {
    if cs == [] then 0
    else if cs[0] in keys then 0
    else 1 + FirstIn(cs[1..], keys)
  }

  /** The first of `cs` that is in `keys`: what a loop that looks each up in
      turn and breaks at the first hit finds. */
  function NearestIn(cs: seq<string>, keys: set<string>): Option<string>
    decreases |cs|
  {
    if cs == [] then None
    else if cs[0] in keys then Some(cs[0])
    else NearestIn(cs[1..], keys)
  }

  /** The lookup finds the candidate at the first index in `keys`. */
  lemma {:induction false} NearestInFirst(cs: seq<string>, keys: set<string>)
    ensures NearestIn(cs, keys) == if FirstIn(cs, keys) < |cs| then Some(cs[FirstIn(cs, keys)]) else None
    decreases |cs|
  {
    if cs != [] && cs[0] !in keys {
      NearestInFirst(cs[1..], keys);
    }
  }

  /** A hit is a candidate in `keys`; there is no hit exactly when no
      candidate is in `keys`. */
  lemma NearestInSound(cs: seq<string>, keys: set<string>)
    ensures NearestIn(cs, keys).Some? ==> NearestIn(cs, keys).value in keys && NearestIn(cs, keys).value in cs
    ensures NearestIn(cs, keys).None? <==> forall j :: 0 <= j < |cs| ==> cs[j] !in keys
  {
    NearestInFirst(cs, keys);
  }

  /** Looking up a concatenation looks up the second part only when the first
      has no hit. */
  lemma {:induction false} NearestInAppend(a: seq<string>, b: seq<string>, keys: set<string>)
    ensures NearestIn(a + b, keys) == if NearestIn(a, keys).Some? then NearestIn(a, keys) else NearestIn(b, keys)
    decreases |a|
  {
    if a == [] {
      assert a + b == b;
    } else {
      assert (a + b)[1..] == a[1..] + b;
      NearestInAppend(a[1..], b, keys);
    }
  }

  /** The key of the device that becomes the parent of the device at `p`
      when `keys` are the paths of all devices. */
  function ParentKey(p: string, keys: set<string>): Option<string> {
    NearestIn(Candidates(p), keys)
  }

  /** The parent is the nearest ancestor that is a device: every other
      ancestor that is a device lies above it. Without a parent, no ancestor
      is a device. */
  lemma ParentKeyIsNearestAncestor(p: string, keys: set<string>)
    ensures ParentKey(p, keys).Some? ==>
      var q := ParentKey(p, keys).value;
      && q in keys
      && IsAncestor(q, p)
      && forall a :: a in keys && IsAncestor(a, p) ==> a == q || IsAncestor(a, q)
    ensures ParentKey(p, keys).None? <==> forall a :: IsAncestor(a, p) ==> a !in keys
  {
    var cs := Candidates(p);
    var k := FirstIn(cs, keys);
    NearestInFirst(cs, keys);
    if k < |cs| {
      var q := cs[k];
      CandidatesAreAncestors(p, q);
      forall a | a in keys && IsAncestor(a, p)
        ensures a == q || IsAncestor(a, q)
      {
        CandidatesAreAncestors(p, a);
        var t :| 0 <= t < |cs| && cs[t] == a;
        if t != k {
          CandidatesNearestFirst(p, k, t);
        }
      }
    } else {
      forall a | IsAncestor(a, p)
        ensures a !in keys
      {
        CandidatesAreAncestors(p, a);
      }
    }
  }

  /** The parent is strictly shallower than the child. */
  lemma ParentKeyShallower(p: string, keys: set<string>)
    requires ParentKey(p, keys).Some?
    ensures Depth(ParentKey(p, keys).value) < Depth(p)
  {
    ParentKeyIsNearestAncestor(p, keys);
    AncestorIsPrefixJoin(ParentKey(p, keys).value, p);
  }

  /** The chain of parents from `p` up to a device without a parent. It ends
      after at most Depth(p) devices, so following parents never cycles. */
  function Ancestry(p: string, keys: set<string>): (chain: seq<string>)
    ensures 1 <= |chain| <= Depth(p)
    ensures chain[0] == p
    ensures ParentKey(chain[|chain| - 1], keys).None?
    ensures forall i :: 0 <= i < |chain| - 1 ==> ParentKey(chain[i], keys) == Some(chain[i + 1])
    decreases Depth(p)
  {
    match ParentKey(p, keys)
    case None => [p]
    case Some(q) =>
      ParentKeyShallower(p, keys);
      [p] + Ancestry(q, keys)
  }

  /** What the current path of the lookup loop is after stripping the
      segment at `i`: the first `i` segments joined, and the first segment
      itself once nothing is left to strip. */
  function Stripped(parts: seq<string>, i: nat): string
    requires i < |parts|
  {
    if i >= 1 then Join(parts[..i]) else parts[0]
  }

  /** The lookup loop over `parts` from the segment at `i` down to the one at
      `lo`: the first stripped path that is in `keys`. */
  function Lookup(parts: seq<string>, i: int, lo: nat, keys: set<string>): Option<string>
    requires i < |parts|
    decreases i + 1
  {
    if i < lo then None
    else if Stripped(parts, i) in keys then Some(Stripped(parts, i))
    else Lookup(parts, i - 1, lo, keys)
  }

  /** The lookup loop finds the first of `cs` in `keys`, when `cs` lists the
      stripped paths from the longest down. */
  lemma {:induction false} LookupIsNearest(parts: seq<string>, lo: nat, cs: seq<string>, keys: set<string>, i: int)
    requires lo <= |parts| && |cs| == |parts| - lo
    requires forall k {:trigger Stripped(parts, k)} :: lo <= k < |parts| ==> cs[|parts| - 1 - k] == Stripped(parts, k)
    requires lo - 1 <= i <= |parts| - 1
    ensures Lookup(parts, i, lo, keys) == NearestIn(cs[|parts| - 1 - i..], keys)
    decreases i + 1
  {
    var n := |parts|;
    var tail := cs[n - 1 - i..];
    if i >= lo {
      LookupIsNearest(parts, lo, cs, keys, i - 1);
      var c := Stripped(parts, i);
      assert tail[0] == c;
      assert tail[1..] == cs[n - i..];
      assert Lookup(parts, i, lo, keys) == if c in keys then Some(c) else Lookup(parts, i - 1, lo, keys);
      assert NearestIn(tail, keys) == if c in keys then Some(c) else NearestIn(tail[1..], keys);
    } else {
      assert tail == [];
      assert NearestIn(tail, keys) == None;
    }
  }

  /** The corrected loop looks up exactly the candidates. */
  lemma LookupIsParentKey(p: string, keys: set<string>)
    ensures Lookup(Split(p), |Split(p)| - 1, 1, keys) == ParentKey(p, keys)
  {
    var parts := Split(p);
    var cs := Candidates(p);
    forall k | 1 <= k < |parts|
      ensures cs[|parts| - 1 - k] == Stripped(parts, k)
    {
      CandidateAt(p, k);
    }
    LookupIsNearest(parts, 1, cs, keys, |parts| - 1);
    assert cs[0..] == cs;
  }

  /** The source's loop looks up the candidates and then the first segment. */
  lemma LookupIsAsWritten(p: string, keys: set<string>)
    ensures Lookup(Split(p), |Split(p)| - 1, 0, keys) == NearestIn(CandidatesAsWritten(p), keys)
  {
    var parts := Split(p);
    var cs := CandidatesAsWritten(p);
    forall k | 0 <= k < |parts|
      ensures cs[|parts| - 1 - k] == Stripped(parts, k)
    {
      if k >= 1 {
        CandidateAt(p, k);
      }
    }
    LookupIsNearest(parts, 0, cs, keys, |parts| - 1);
    assert cs[0..] == cs;
  }

  /** A parent found is a device path above `p`. */
  lemma ParentKeyIsAncestor(p: string, keys: set<string>)
    ensures ParentKey(p, keys).Some? ==> ParentKey(p, keys).value in keys && IsAncestor(ParentKey(p, keys).value, p)
  {
    ParentKeyIsNearestAncestor(p, keys);
  }

  /** The key the stripping loop finds for `p` when it runs down to the
      segment at `lo`: `ParentKey` for 1 (`LookupIsParentKey`), the
      source's loop for 0 (`LookupIsAsWritten`). */
  function SearchKey(p: string, keys: set<string>, lo: nat): Option<string> {
    Lookup(Split(p), |Split(p)| - 1, lo, keys)
  }

  /** Whatever the lookup finds is one of the keys. */
  lemma {:induction false} LookupFound(parts: seq<string>, i: int, lo: nat, keys: set<string>)
    requires i < |parts|
    ensures Lookup(parts, i, lo, keys).Some? ==> Lookup(parts, i, lo, keys).value in keys
    decreases i + 1
  {
    if i >= lo && Stripped(parts, i) !in keys {
      LookupFound(parts, i - 1, lo, keys);
    }
  }

  /** The inner loop of the linking pass, down to the segment at `lo`:
      strip the last segment, look the result up, stop at the first hit.
      It finds what the lookup over the stripped paths finds. */
  method SearchUp(devpath: string, keys: set<string>, lo: nat) returns (parent: Option<string>)
    ensures parent == SearchKey(devpath, keys, lo)
    ensures parent.Some? ==> parent.value in keys
  {
    var parts := Split(devpath);
    var n := |parts|;
    JoinSplit(devpath);
    assert parts[..n] == parts;
    ghost var found := Lookup(parts, n - 1, lo, keys);
    var cur := devpath;
    var i := n - 1;
    while i >= lo
      invariant -1 <= i <= n - 1
      invariant i >= 0 ==> cur == Join(parts[..i + 1])
      invariant Lookup(parts, i, lo, keys) == found
    {
      SearchStep(parts, i, lo, keys, cur);
      cur := TrimSuffix(cur, "/" + parts[i]);
      if cur in keys {
        return Some(cur);
      }
      i := i - 1;
    }
    return None;
  }

  /** The corrected search, stopping before the first segment: the nearest
      strict ancestor that is a device, or none. */
  method FindParent(devpath: string, keys: set<string>) returns (parent: Option<string>)
    ensures parent == ParentKey(devpath, keys)
    ensures parent.Some? ==> parent.value in keys && IsAncestor(parent.value, devpath)
  {
    LookupIsParentKey(devpath, keys);
    ParentKeyIsAncestor(devpath, keys);
    parent := SearchUp(devpath, keys, 1);
  }

  /** The paths the source's loop looks up: the candidates, then the first
      segment once more. */
  function CandidatesAsWritten(p: string): seq<string> {
    Candidates(p) + [Split(p)[0]]
  }

  /** The search as the source has it, going down to and including the
      first segment. */
  method FindParentAsWritten(devpath: string, keys: set<string>) returns (parent: Option<string>)
    ensures parent == NearestIn(CandidatesAsWritten(devpath), keys)
  {
    LookupIsAsWritten(devpath, keys);
    parent := SearchUp(devpath, keys, 0);
  }

  /** The source's loop makes a device whose path has a single segment (a
      top-level directory such as "pci0000:00", or ".") its own parent. */
  lemma SelfParentAsWritten(p: string, keys: set<string>)
    requires Depth(p) == 1 && p in keys
    ensures NearestIn(CandidatesAsWritten(p), keys) == Some(p)
  {
    JoinSplit(p);
    assert CandidatesAsWritten(p) == [p];
  }

  /** A concrete instance: the first PCI host bridge is its own parent. */
  lemma SelfParentExample()
    ensures NearestIn(CandidatesAsWritten("pci0000:00"), {"pci0000:00"}) == Some("pci0000:00")
  {
    assert Cut("pci0000:00", '/').2 == false;
    SelfParentAsWritten("pci0000:00", {"pci0000:00"});
  }

  /** On paths of two segments or more the corrected loop finds the same
      parent as the source's. */
  lemma AsWrittenAgreesWhenNested(p: string, keys: set<string>)
    requires Depth(p) >= 2
    ensures NearestIn(CandidatesAsWritten(p), keys) == ParentKey(p, keys)
  {
    var cs := Candidates(p);
    var parts := Split(p);
    CandidateAt(p, 1);
    assert Join(parts[..1]) == parts[0];
    NearestInAppend(cs, [parts[0]], keys);
    NearestInSound(cs, keys);
  }

  /** No device is listed twice. */
  predicate Distinct(devices: seq<Device>) {
    forall i, j :: 0 <= i < j < |devices| ==> devices[i] != devices[j]
  }

  /** The key the search down to `lo` finds for every path of `keys`, its
      entries tied to SearchKey only where a SearchKey term is already at
      hand, so that proofs quantifying over the table do not unfold the
      search for every path. */
  lemma ParentTable(keys: set<string>, lo: nat) returns (pm: map<string, Option<string>>)
    ensures pm.Keys == keys
    ensures forall k {:trigger SearchKey(k, keys, lo)} :: k in keys ==> pm[k] == SearchKey(k, keys, lo)
  {
    pm := map k | k in keys :: SearchKey(k, keys, lo);
  }

  /** The devices of `devices`, in their order there, whose entry in the
      parent table `pm` is `q`. */
  function ChildrenOf(devices: seq<Device>, q: string, pm: map<string, Option<string>>): seq<Device>
    decreases |devices|
  {
    if devices == [] then []
    else
      var last := devices[|devices| - 1];
      ChildrenOf(devices[..|devices| - 1], q, pm)
        + (if last.Devpath in pm && pm[last.Devpath] == Some(q) then [last] else [])
  }

  /** Returning one more device extends the children of its parent only. */
  lemma ChildrenOfSnoc(devices: seq<Device>, v: Device, q: string, pm: map<string, Option<string>>)
    ensures ChildrenOf(devices + [v], q, pm)
      == ChildrenOf(devices, q, pm) + (if v.Devpath in pm && pm[v.Devpath] == Some(q) then [v] else [])
  {
    assert (devices + [v])[..|devices|] == devices;
  }

  /** A device is a child of `q` exactly when `q` is its parent ... */
  lemma {:induction false} ChildrenOfMembers(devices: seq<Device>, q: string, pm: map<string, Option<string>>, c: Device)
    ensures c in ChildrenOf(devices, q, pm) <==>
      c in devices && c.Devpath in pm && pm[c.Devpath] == Some(q)
    decreases |devices|
  {
    if devices != [] {
      var init := devices[..|devices| - 1];
      ChildrenOfMembers(init, q, pm, c);
      assert devices == init + [devices[|devices| - 1]];
    }
  }

  /** ... and appears among the children once. */
  lemma {:induction false} ChildrenOfDistinct(devices: seq<Device>, q: string, pm: map<string, Option<string>>)
    requires Distinct(devices)
    ensures Distinct(ChildrenOf(devices, q, pm))
    decreases |devices|
  {
    if devices != [] {
      var n := |devices|;
      var init := devices[..n - 1];
      ChildrenOfDistinct(init, q, pm);
      ChildrenOfMembers(init, q, pm, devices[n - 1]);
    }
  }

  /** The device the path `k` gets as parent according to the table `pm`, or
      `fallback` when it has none. */
  function LinkedParent(m: map<string, Device>, pm: map<string, Option<string>>, k: string, fallback: Device?): Device? {
    if k in pm && pm[k].Some? && pm[k].value in m then m[pm[k].value] else fallback
  }

  /** The children table after returning `v`: its parent in `pm`, when that
      is a device, gets `v` appended. */
  function NextKids(kids: map<string, seq<Device>>, v: Device, pm: map<string, Option<string>>): map<string, seq<Device>> {
    if v.Devpath in pm && pm[v.Devpath].Some? && pm[v.Devpath].value in kids then
      kids[pm[v.Devpath].value := kids[pm[v.Devpath].value] + [v]]
    else kids
  }

  /** Appending to the children table keeps it equal to `ChildrenOf` of the
      returned devices. */
  lemma KidsStep(devices: seq<Device>, v: Device, pm: map<string, Option<string>>, kids: map<string, seq<Device>>)
    requires forall k :: k in kids ==> kids[k] == ChildrenOf(devices, k, pm)
    ensures NextKids(kids, v, pm).Keys == kids.Keys
    ensures forall k :: k in kids ==> NextKids(kids, v, pm)[k] == ChildrenOf(devices + [v], k, pm)
  {
    forall k | k in kids
      ensures NextKids(kids, v, pm)[k] == ChildrenOf(devices + [v], k, pm)
    {
      ChildrenOfSnoc(devices, v, k, pm);
    }
  }

  /** No two of the devices share a path. */
  predicate DistinctPaths(devices: seq<Device>) {
    forall i, j :: 0 <= i < j < |devices| ==> devices[i].Devpath != devices[j].Devpath
  }

  /** Distinct devices taken from a map keyed by path have distinct paths. */
  lemma VisitedPathsDistinct(devicesMap: map<string, Device>, devices: seq<Device>)
    requires Visited(devicesMap, devices, {})
    requires Distinct(devices)
    ensures DistinctPaths(devices)
  {
    forall i, j | 0 <= i < j < |devices|
      ensures devices[i].Devpath != devices[j].Devpath
    {
      assert devicesMap[devices[i].Devpath] == devices[i];
      assert devicesMap[devices[j].Devpath] == devices[j];
    }
  }

  /** Returning a device not returned before keeps the devices distinct. */
  lemma DistinctSnoc(devices: seq<Device>, v: Device)
    requires Distinct(devices)
    requires v !in devices
    ensures Distinct(devices + [v])
  {
  }

  /** The devices listed are exactly the entries of the map that are not
      `remaining`, each under its own path. */
  predicate Visited(devicesMap: map<string, Device>, devices: seq<Device>, remaining: set<string>) {
    && (forall i :: 0 <= i < |devices| ==>
          devices[i].Devpath in devicesMap && devices[i].Devpath !in remaining
          && devicesMap[devices[i].Devpath] == devices[i])
    && (forall k :: k in devicesMap && k !in remaining ==> devicesMap[k] in devices)
  }

  /** Visiting one more entry of the map. */
  lemma VisitStep(devicesMap: map<string, Device>, devices: seq<Device>, remaining: set<string>, key: string)
    requires Visited(devicesMap, devices, remaining)
    requires Distinct(devices)
    requires key in remaining && key in devicesMap && devicesMap[key].Devpath == key
    ensures Visited(devicesMap, devices + [devicesMap[key]], remaining - {key})
    ensures Distinct(devices + [devicesMap[key]])
  {
    var v := devicesMap[key];
    var next := devices + [v];
    assert forall i :: 0 <= i < |devices| ==> next[i] == devices[i];
    assert next[|devices|] == v;
    DistinctSnoc(devices, v);
  }

  /** Links `child` below `parent`; when the two are the same device, it
      becomes its own parent and its own child. */
  method Attach(child: Device, parent: Device)
    modifies child`Parent, parent`Children
    ensures child.Parent == parent
    ensures parent.Children == old(parent.Children) + [child]
  {
    child.Parent := parent;
    parent.Children := parent.Children + [child];
  }

  /** Every visited device points to its parent from the table `pm`; the
      others have no parent yet. */
  predicate ParentsLinked(devicesMap: map<string, Device>, pm: map<string, Option<string>>, remaining: set<string>)
    reads devicesMap.Values
  {
    forall k :: k in devicesMap ==>
      devicesMap[k].Parent == if k in remaining then null else LinkedParent(devicesMap, pm, k, null)
  }

  /** The children of every device are those of the table `kids`. */
  predicate ChildrenAre(devicesMap: map<string, Device>, kids: map<string, seq<Device>>)
    reads devicesMap.Values
  {
    forall k :: k in devicesMap ==> k in kids && devicesMap[k].Children == kids[k]
  }

  /** One step of the linking pass, its search running down to the segment
      at `lo`: the device at `key` is linked below the device at the path
      found, if one is. */
  method LinkOne(devicesMap: map<string, Device>, key: string, lo: nat, ghost pm: map<string, Option<string>>,
                 ghost remaining: set<string>, ghost kids: map<string, seq<Device>>)
    requires forall k :: k in devicesMap ==> devicesMap[k].Devpath == k
    requires key in remaining && remaining <= devicesMap.Keys
    requires key in pm && pm[key] == SearchKey(key, devicesMap.Keys, lo)
    requires ParentsLinked(devicesMap, pm, remaining)
    requires ChildrenAre(devicesMap, kids)
    modifies devicesMap.Values`Parent, devicesMap.Values`Children
    ensures ParentsLinked(devicesMap, pm, remaining - {key})
    ensures ChildrenAre(devicesMap, NextKids(kids, devicesMap[key], pm))
  {
    var v := devicesMap[key];
    var parent := SearchUp(v.Devpath, devicesMap.Keys, lo);
    label Link:
    if parent.Some? {
      var device := devicesMap[parent.value];
      Attach(v, device);
    }
    forall k | k in devicesMap
      ensures devicesMap[k].Parent == if k in remaining - {key} then null else LinkedParent(devicesMap, pm, k, null)
    {
      if k != key {
        assert devicesMap[k] != v;
        assert devicesMap[k].Parent == old@Link(devicesMap[k].Parent);
      } else if parent.Some? {
        assert v.Parent == devicesMap[parent.value];
      } else {
        assert v.Parent == null;
      }
    }
    ghost var next := NextKids(kids, v, pm);
    forall k | k in devicesMap
      ensures k in next && devicesMap[k].Children == next[k]
    {
      if parent == Some(k) {
        assert devicesMap[k].Children == old@Link(devicesMap[k].Children) + [v];
      } else if parent.Some? {
        assert devicesMap[parent.value].Devpath == parent.value;
        assert devicesMap[k] != devicesMap[parent.value];
        assert devicesMap[k].Children == old@Link(devicesMap[k].Children);
      } else {
        assert devicesMap[k].Children == old@Link(devicesMap[k].Children);
      }
    }
  }

  /** The outcome of the linking pass with the search down to `lo`: every
      device of the map once, with distinct paths, linked by that search. */
  predicate Linked(devicesMap: map<string, Device>, devices: seq<Device>, lo: nat)
    reads set d | d in devices
  {
    && Distinct(devices) && DistinctPaths(devices)
    && Visited(devicesMap, devices, {})
    && LinkedBy(devices, devicesMap.Keys, lo)
  }

  /** The linking pass over the freshly discovered devices, keyed by path,
      visiting them in an unspecified order, its search running down to the
      segment at `lo` (0 as in the source, 1 for the corrected search).
      Every device of the map is returned once; each gets the device the
      search finds as parent (none when it finds none), and each has as
      children the devices it is parent of, in the order they are returned. */
  method LinkTree(devicesMap: map<string, Device>, lo: nat) returns (devices: seq<Device>)
    requires forall k :: k in devicesMap ==> devicesMap[k].Devpath == k
    requires forall k :: k in devicesMap ==> devicesMap[k].Parent == null && devicesMap[k].Children == []
    modifies devicesMap.Values`Parent, devicesMap.Values`Children
    ensures Linked(devicesMap, devices, lo)
  {
    var keys := devicesMap.Keys;
    ghost var pm := ParentTable(keys, lo);
    ghost var kids: map<string, seq<Device>> := map k | k in keys :: [];
    var remaining := keys;
    devices := [];
    while remaining != {}
      invariant remaining <= keys
      invariant Distinct(devices)
      invariant Visited(devicesMap, devices, remaining)
      invariant ParentsLinked(devicesMap, pm, remaining)
      invariant kids.Keys == keys
      invariant forall k :: k in kids ==> kids[k] == ChildrenOf(devices, k, pm)
      invariant ChildrenAre(devicesMap, kids)
      decreases remaining
    {
      var key :| key in remaining;
      assert pm[key] == SearchKey(key, keys, lo);
      KidsStep(devices, devicesMap[key], pm, kids);
      VisitStep(devicesMap, devices, remaining, key);
      LinkOne(devicesMap, key, lo, pm, remaining, kids);
      devices := devices + [devicesMap[key]];
      kids := NextKids(kids, devicesMap[key], pm);
      remaining := remaining - {key};
    }
    LinkedIsLinkedBy(devicesMap, lo, pm, devices);
    VisitedPathsDistinct(devicesMap, devices);
  }

  /** The devices of `devices`, in their order there, whose parent is `d`. */
  function ChildrenByParent(devices: seq<Device>, d: Device): seq<Device>
    reads (set c | c in devices)`Parent
    decreases |devices|
  {
    if devices == [] then []
    else
      var last := devices[|devices| - 1];
      ChildrenByParent(devices[..|devices| - 1], d) + (if last.Parent == d then [last] else [])
  }

  /** Where the parent links agree with the table, the children by table are
      the children by link. */
  lemma {:induction false} ChildrenOfByParent(devices: seq<Device>, d: Device, pm: map<string, Option<string>>)
    requires forall c :: c in devices ==> (c.Parent == d <==> c.Devpath in pm && pm[c.Devpath] == Some(d.Devpath))
    ensures ChildrenOf(devices, d.Devpath, pm) == ChildrenByParent(devices, d)
    decreases |devices|
  {
    if devices != [] {
      var init := devices[..|devices| - 1];
      assert forall c :: c in init ==> c in devices;
      ChildrenOfByParent(init, d, pm);
    }
  }

  /** The devices are linked by the search over `keys` down to `lo`: a
      device has a parent exactly when the search finds a path for it, that
      parent is one of the devices, at the path found; the children of a
      device are the devices whose parent it is, in the order of `devices`,
      each listed once. */
  predicate LinkedBy(devices: seq<Device>, keys: set<string>, lo: nat)
    reads set d | d in devices
  {
    && (forall d :: d in devices ==> (d.Parent == null <==> SearchKey(d.Devpath, keys, lo).None?))
    && (forall d :: d in devices && d.Parent != null ==>
          d.Parent in devices && Some(d.Parent.Devpath) == SearchKey(d.Devpath, keys, lo))
    && (forall d :: d in devices ==> d.Children == ChildrenByParent(devices, d))
    && (forall d, c :: d in devices && c in devices ==> (c in d.Children <==> c.Parent == d))
    && (forall d :: d in devices ==> Distinct(d.Children))
  }

  /** After the pass, the links recorded with the table of the search down
      to `lo` are the links of that search. */
  lemma LinkedIsLinkedBy(devicesMap: map<string, Device>, lo: nat, pm: map<string, Option<string>>, devices: seq<Device>)
    requires forall k :: k in devicesMap ==> devicesMap[k].Devpath == k
    requires pm.Keys == devicesMap.Keys
    requires forall k {:trigger SearchKey(k, devicesMap.Keys, lo)} :: k in devicesMap ==> pm[k] == SearchKey(k, devicesMap.Keys, lo)
    requires Distinct(devices)
    requires Visited(devicesMap, devices, {})
    requires ParentsLinked(devicesMap, pm, {})
    requires forall k :: k in devicesMap ==> devicesMap[k].Children == ChildrenOf(devices, k, pm)
    ensures LinkedBy(devices, devicesMap.Keys, lo)
  {
    var keys := devicesMap.Keys;
    forall d | d in devices
      ensures d.Parent == null <==> SearchKey(d.Devpath, keys, lo).None?
      ensures d.Parent != null ==> d.Parent in devices && Some(d.Parent.Devpath) == SearchKey(d.Devpath, keys, lo)
    {
      LookupFound(Split(d.Devpath), |Split(d.Devpath)| - 1, lo, keys);
    }
    forall d, c | d in devices && c in devices
      ensures c.Parent == d <==> c.Devpath in pm && pm[c.Devpath] == Some(d.Devpath)
    {
      LookupFound(Split(c.Devpath), |Split(c.Devpath)| - 1, lo, keys);
    }
    forall d | d in devices
      ensures d.Children == ChildrenByParent(devices, d)
      ensures Distinct(d.Children)
      ensures forall c :: c in devices ==> (c in d.Children <==> c.Parent == d)
    {
      ChildrenOfByParent(devices, d, pm);
      ChildrenOfDistinct(devices, d.Devpath, pm);
      forall c | c in devices
        ensures c in d.Children <==> c.Parent == d
      {
        ChildrenOfMembers(devices, d.Devpath, pm, c);
      }
    }
  }

  /** The devices form a forest under the parent search over `keys`: a
      device has a parent exactly when its path has a device above it, that
      parent is one of the devices, at the nearest such path; the children of
      a device are the devices whose parent it is, in the order of `devices`,
      each listed once. */
  predicate IsForest(devices: seq<Device>, keys: set<string>)
    reads set d | d in devices
  {
    && (forall d :: d in devices ==> (d.Parent == null <==> ParentKey(d.Devpath, keys).None?))
    && (forall d :: d in devices && d.Parent != null ==>
          d.Parent in devices && Some(d.Parent.Devpath) == ParentKey(d.Devpath, keys))
    && (forall d :: d in devices ==> d.Children == ChildrenByParent(devices, d))
    && (forall d, c :: d in devices && c in devices ==> (c in d.Children <==> c.Parent == d))
    && (forall d :: d in devices ==> Distinct(d.Children))
  }

  /** The links of the corrected search form the forest. */
  lemma LinkedByIsForest(devices: seq<Device>, keys: set<string>)
    requires LinkedBy(devices, keys, 1)
    ensures IsForest(devices, keys)
  {
    forall d | d in devices
      ensures SearchKey(d.Devpath, keys, 1) == ParentKey(d.Devpath, keys)
    {
      LookupIsParentKey(d.Devpath, keys);
    }
  }

  /** On the pass as the source runs it, a device whose path has a single
      segment is its own parent and one of its own children. */
  lemma AsWrittenSelfLinked(devicesMap: map<string, Device>, devices: seq<Device>, d: Device)
    requires Linked(devicesMap, devices, 0)
    requires d in devices && Depth(d.Devpath) == 1
    ensures d.Parent == d && d in d.Children
  {
    var keys := devicesMap.Keys;
    var i :| 0 <= i < |devices| && devices[i] == d;
    LookupIsAsWritten(d.Devpath, keys);
    SelfParentAsWritten(d.Devpath, keys);
    assert SearchKey(d.Devpath, keys, 0) == Some(d.Devpath);
    var j :| 0 <= j < |devices| && devices[j] == d.Parent;
    assert devicesMap[d.Devpath] == d;
    assert devicesMap[devices[j].Devpath] == devices[j];
  }

  /** On that pass, a device whose path has two segments or more is linked
      as in the forest: below the nearest device above it, never itself. */
  lemma AsWrittenNested(devicesMap: map<string, Device>, devices: seq<Device>, d: Device)
    requires Linked(devicesMap, devices, 0)
    requires d in devices && Depth(d.Devpath) >= 2
    ensures d.Parent == null <==> ParentKey(d.Devpath, devicesMap.Keys).None?
    ensures d.Parent != null ==>
      d.Parent in devices && d.Parent != d && Some(d.Parent.Devpath) == ParentKey(d.Devpath, devicesMap.Keys)
  {
    var keys := devicesMap.Keys;
    LookupIsAsWritten(d.Devpath, keys);
    AsWrittenAgreesWhenNested(d.Devpath, keys);
    ParentKeyIsAncestor(d.Devpath, keys);
  }

}
