/** The records of src/types.ts that the sandbox backend keeps. Optional lists that the
    source reads with `?? []` are plain lists here. */
module SandboxTypes {
  import opened Prelude

  datatype Backend = WireGuard | OpenVpn | Xray | NoTunnel
  datatype Mode = Socks | Tun

  datatype ServiceCheck = ServiceCheck(id: string, name: string, url: string, endpointKey: string, background: bool)
  datatype Pin = Pin(selectors: seq<string>, endpointKey: string, missing: bool)
  datatype Node = Node(key: string, name: string)
  datatype PoolFilter = PoolFilter(nameContains: seq<string>, exitCountry: Option<string>)
  datatype PoolSettings = PoolSettings(filters: seq<PoolFilter>, verifyExitCountry: bool)
  datatype Subscription = Subscription(activeIndex: nat, activeKey: Option<string>, backupKeys: seq<Node>,
                                       nodePool: Option<PoolSettings>, poolKeys: seq<Node>)
  datatype ProxyExit = NodeExit(endpointKey: string) | PoolExit(endpointKeys: seq<string>) | OtherExit

  datatype Profile = Profile(id: string, name: string, backend: Backend, configPath: string, hasRoutes: bool,
                             mode: Mode, subscription: Option<Subscription>, pinned: seq<Pin>,
                             dnsKey: Option<string>, checks: seq<ServiceCheck>, exits: seq<ProxyExit>,
                             sockopts: Option<string>, socksPort: Option<nat>, httpPort: Option<nat>)

  /** The first profile with the id. */
  function Find(profiles: seq<Profile>, id: string): (r: Option<Profile>)
    ensures r.Some? ==> r.value.id == id && r.value in profiles
    ensures r.None? ==> forall p :: p in profiles ==> p.id != id
  {
    if profiles == [] then None
    else if profiles[0].id == id then Some(profiles[0])
    else Find(profiles[1..], id)
  }

  /** The list after the found profile was changed in place. */
  function Update(profiles: seq<Profile>, p: Profile): (r: seq<Profile>)
    ensures |r| == |profiles| && forall i :: 0 <= i < |r| ==> r[i].id == profiles[i].id
  {
    if profiles == [] then []
    else if profiles[0].id == p.id then [p] + profiles[1..]
    else [profiles[0]] + Update(profiles[1..], p)
  }

  function Remove(profiles: seq<Profile>, id: string): (r: seq<Profile>)
    ensures forall i :: 0 <= i < |r| ==> r[i].id != id
  {
    if profiles == [] then []
    else if profiles[0].id == id then Remove(profiles[1..], id)
    else [profiles[0]] + Remove(profiles[1..], id)
  }

  ghost predicate DistinctIds(profiles: seq<Profile>) {
    forall i, j :: 0 <= i < j < |profiles| ==> profiles[i].id != profiles[j].id
  }

  lemma UpdateDistinct(profiles: seq<Profile>, p: Profile)
    requires DistinctIds(profiles)
    ensures DistinctIds(Update(profiles, p))
  {
  }

  lemma {:induction false} FindUpdated(profiles: seq<Profile>, p: Profile, id: string)
    requires Find(profiles, p.id).Some?
    ensures Find(Update(profiles, p), id) == if id == p.id then Some(p) else Find(profiles, id)
    decreases |profiles|
  {
    if profiles != [] {
      if profiles[0].id == p.id {
        assert Update(profiles, p)[1..] == profiles[1..];
      } else {
        FindUpdated(profiles[1..], p, id);
        assert Update(profiles, p)[1..] == Update(profiles[1..], p);
      }
    }
  }

  lemma {:induction false} FindRemoved(profiles: seq<Profile>, gone: string, id: string)
    ensures Find(Remove(profiles, gone), id) == if id == gone then None else Find(profiles, id)
    decreases |profiles|
  {
    if profiles != [] {
      FindRemoved(profiles[1..], gone, id);
      if profiles[0].id != gone {
        assert Remove(profiles, gone)[1..] == Remove(profiles[1..], gone);
      }
    }
  }

  lemma {:induction false} FindAppended(profiles: seq<Profile>, p: Profile, id: string)
    requires Find(profiles, p.id).None?
    ensures Find(profiles + [p], id) == if id == p.id then Some(p) else Find(profiles, id)
    decreases |profiles|
  {
    var all := profiles + [p];
    if profiles == [] {
      assert all[1..] == [];
    } else {
      assert all[1..] == profiles[1..] + [p];
      FindAppended(profiles[1..], p, id);
    }
  }

  lemma {:induction false} RemoveKeepsMembers(profiles: seq<Profile>, gone: string, k: nat)
    requires k < |Remove(profiles, gone)|
    ensures Remove(profiles, gone)[k] in profiles
    decreases |profiles|
  {
    if profiles[0].id == gone {
      RemoveKeepsMembers(profiles[1..], gone, k);
    } else if k > 0 {
      RemoveKeepsMembers(profiles[1..], gone, k - 1);
    }
  }

  lemma {:induction false} RemoveDistinct(profiles: seq<Profile>, gone: string)
    requires DistinctIds(profiles)
    ensures DistinctIds(Remove(profiles, gone))
    decreases |profiles|
  {
    if profiles != [] {
      RemoveDistinct(profiles[1..], gone);
      var rest := Remove(profiles[1..], gone);
      forall k | 0 <= k < |rest| ensures rest[k].id != profiles[0].id {
        RemoveKeepsMembers(profiles[1..], gone, k);
      }
    }
  }

  lemma FoundAt(profiles: seq<Profile>, k: nat)
    requires DistinctIds(profiles) && k < |profiles|
    ensures Find(profiles, profiles[k].id) == Some(profiles[k])
  {
  }

  lemma RemoveOne(profiles: seq<Profile>, i: nat)
    requires DistinctIds(profiles) && i < |profiles|
    ensures Remove(profiles, profiles[i].id) == profiles[..i] + profiles[i + 1..]
  {
    hide Remove;
    var a, p, b := profiles[..i], profiles[i], profiles[i + 1..];
    assert forall k :: 0 <= k < |a| ==> a[k].id != p.id;
    assert forall k :: 0 <= k < |b| ==> b[k].id != p.id;
    assert profiles == a + [p] + b;
    RemoveMiddle(a, p, b);
  }

  lemma {:induction false} RemoveMiddle(a: seq<Profile>, p: Profile, b: seq<Profile>)
    requires forall k :: 0 <= k < |a| ==> a[k].id != p.id
    requires forall k :: 0 <= k < |b| ==> b[k].id != p.id
    ensures Remove(a + [p] + b, p.id) == a + b
    decreases |a|
  {
    var s := a + [p] + b;
    if a == [] {
      assert s[1..] == b;
      RemoveNone(b, p.id);
    } else {
      assert s[1..] == a[1..] + [p] + b;
      RemoveMiddle(a[1..], p, b);
      assert [a[0]] + (a[1..] + b) == a + b;
    }
  }

  lemma {:induction false} RemoveNone(profiles: seq<Profile>, id: string)
    requires forall i :: 0 <= i < |profiles| ==> profiles[i].id != id
    ensures Remove(profiles, id) == profiles
    decreases |profiles|
  {
    if profiles != [] { RemoveNone(profiles[1..], id); }
  }
}
