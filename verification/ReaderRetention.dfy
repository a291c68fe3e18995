/**
 The share reader's bounded retention of exact-key capabilities. A revision is installed
 only if every key of every revision accepted so far stays usable.
 */
module ReaderRetention {
  import opened Basics

  datatype Header = Header(name: string, values: seq<string>)

  datatype Capability = Capability(rawURL: string, headers: seq<Header>)

  type Capabilities = map<string, Capability>

  /** An authenticated bundle. Its digest identifies it, so equal digests are equal bundles. */
  datatype Bundle = Bundle(
    revision: Uint64,
    generation: Uint64,
    commit: Digest,
    reference: nat,
    capabilities: Capabilities)

  datatype Revision = Revision(bundle: Bundle, etag: string, versionId: string, capabilityBytes: nat)

  // ------------------------------------------------------------ charges

  function ValuesCharge(values: seq<string>): nat {
    if values == [] then 0 else ValuesCharge(values[..|values| - 1]) + |values[|values| - 1]| + 16
  }

  function HeadersCharge(headers: seq<Header>): nat {
    if headers == [] then 0
    else
      var last := headers[|headers| - 1];
      HeadersCharge(headers[..|headers| - 1]) + |last.name| + 32 + ValuesCharge(last.values)
  }

  function Charge(key: string, capability: Capability): nat {
    256 + |key| + |capability.rawURL| + HeadersCharge(capability.headers)
  }

  lemma {:induction false} HeadersChargePrefix(headers: seq<Header>, k: nat)
    requires k <= |headers|
    ensures HeadersCharge(headers[..k]) <= HeadersCharge(headers)
    decreases |headers| - k
  {
    if k < |headers| {
      assert headers[..k + 1][..k] == headers[..k];
      HeadersChargePrefix(headers, k + 1);
    } else {
      assert headers[..k] == headers;
    }
  }

  lemma {:induction false} ValuesChargePrefix(values: seq<string>, k: nat)
    requires k <= |values|
    ensures ValuesCharge(values[..k]) <= ValuesCharge(values)
    decreases |values| - k
  {
    if k < |values| {
      assert values[..k + 1][..k] == values[..k];
      ValuesChargePrefix(values, k + 1);
    } else {
      assert values[..k] == values;
    }
  }

  /** The accounting loop: it fails exactly when the charge does not fit 63 bits. */
  method CapabilityCharge(key: string, capability: Capability) returns (r: Result<nat>)
    ensures r == if Charge(key, capability) <= MAX_INT64 then Ok(Charge(key, capability)) else Err(ResourceLimit)
  {
    var charge := 256 + |key| + |capability.rawURL|;
    if charge > MAX_INT64 {
      return Err(ResourceLimit);
    }
    var headers := capability.headers;
    for i := 0 to |headers|
      invariant charge == 256 + |key| + |capability.rawURL| + HeadersCharge(headers[..i]) <= MAX_INT64
    {
      HeadersChargePrefix(headers, i + 1);
      assert headers[..i + 1][..i] == headers[..i];
      if charge > MAX_INT64 - (|headers[i].name| + 32) {
        return Err(ResourceLimit);
      }
      charge := charge + |headers[i].name| + 32;
      var values := headers[i].values;
      for j := 0 to |values|
        invariant charge == 256 + |key| + |capability.rawURL| + HeadersCharge(headers[..i]) + |headers[i].name| + 32
                  + ValuesCharge(values[..j]) <= MAX_INT64
      {
        ValuesChargePrefix(values, j + 1);
        assert values[..j + 1][..j] == values[..j];
        if charge > MAX_INT64 - (|values[j]| + 16) {
          return Err(ResourceLimit);
        }
        charge := charge + |values[j]| + 16;
      }
      assert values[..|values|] == values;
    }
    assert headers[..|headers|] == headers;
    return Ok(charge);
  }

  /** The sum of the charges, in whatever order the map is walked. */
  ghost function Sum(capabilities: Capabilities): nat {
    if capabilities == map[] then 0
    else
      var key :| key in capabilities;
      Charge(key, capabilities[key]) + Sum(capabilities - {key})
  }

  lemma {:induction false} SumRemove(capabilities: Capabilities, key: string)
    requires key in capabilities
    ensures Sum(capabilities) == Charge(key, capabilities[key]) + Sum(capabilities - {key})
    decreases |capabilities|
  {
    var first :| first in capabilities
                 && Sum(capabilities) == Charge(first, capabilities[first]) + Sum(capabilities - {first});
    if first != key {
      SumRemove(capabilities - {first}, key);
      SumRemove(capabilities - {key}, first);
      assert (capabilities - {first}) - {key} == (capabilities - {key}) - {first};
    }
  }

  lemma SumAdd(capabilities: Capabilities, key: string, capability: Capability)
    requires key !in capabilities
    ensures Sum(capabilities[key := capability]) == Sum(capabilities) + Charge(key, capability)
  {
    SumRemove(capabilities[key := capability], key);
    assert capabilities[key := capability] - {key} == capabilities;
  }

  lemma {:induction false} SumMonotone(part: Capabilities, whole: Capabilities)
    requires Submap(part, whole)
    ensures Sum(part) <= Sum(whole)
    decreases |part|
  {
    if part != map[] {
      var key :| key in part;
      SumRemove(part, key);
      SumRemove(whole, key);
      SumMonotone(part - {key}, whole - {key});
    }
  }

  function Lower(c: char): char {
    if 'A' <= c <= 'Z' then c - 'A' + 'a' else c
  }

  predicate IsIfNoneMatch(name: string) {
    var folded := "if-none-match";
    |name| == |folded| && forall i | 0 <= i < |name| :: Lower(name[i]) == folded[i]
  }

  predicate FixesIfNoneMatch(capability: Capability) {
    exists i | 0 <= i < |capability.headers| :: IsIfNoneMatch(capability.headers[i].name)
  }

  ghost predicate Unconditional(capabilities: Capabilities) {
    forall key | key in capabilities :: !FixesIfNoneMatch(capabilities[key])
  }

  method ValidateCapabilities(capabilities: Capabilities) returns (r: Result<nat>)
    ensures r.Ok? <==> Unconditional(capabilities) && Sum(capabilities) <= MAX_INT64
    ensures r.Ok? ==> r.value == Sum(capabilities)
  {
    var total, left := 0, capabilities.Keys;
    assert capabilities - left == map[];
    while left != {}
      invariant left <= capabilities.Keys
      invariant total == Sum(capabilities - left) <= MAX_INT64
      invariant forall key | key in capabilities && key !in left :: !FixesIfNoneMatch(capabilities[key])
      decreases |left|
    {
      var key :| key in left;
      if FixesIfNoneMatch(capabilities[key]) {
        return Err(Incompatible);
      }
      SumTake(capabilities, left, key);
      var charge := CapabilityCharge(key, capabilities[key]);
      if charge.Err? || total > MAX_INT64 - charge.value {
        return Err(ResourceLimit);
      }
      total, left := total + charge.value, left - {key};
    }
    assert capabilities - left == capabilities;
    return Ok(total);
  }

  /** Walking one more key adds its charge and never exceeds the whole sum. */
  lemma SumTake(capabilities: Capabilities, left: set<string>, key: string)
    requires left <= capabilities.Keys && key in left
    ensures Sum(capabilities - (left - {key}))
         == Sum(capabilities - left) + Charge(key, capabilities[key]) <= Sum(capabilities)
  {
    SumAdd(capabilities - left, key, capabilities[key]);
    assert capabilities - (left - {key}) == (capabilities - left)[key := capabilities[key]];
    SumMonotone(capabilities - (left - {key}), capabilities);
  }

  // ------------------------------------------------------------ merging

  lemma MergeStep(retained: Capabilities, current: Capabilities, left: set<string>, key: string)
    requires key in left && left <= current.Keys && retained.Keys !! current.Keys
    ensures key !in retained + (current - left)
    ensures (retained + (current - left))[key := current[key]] == retained + (current - (left - {key}))
  {
  }

  /** What is merged once only the keys in `left` are to come. */
  ghost predicate MergedSoFar(retained: Capabilities, current: Capabilities, left: set<string>, merged: Capabilities,
                              total: nat) {
    && left <= current.Keys && merged == retained + (current - left)
    && total == Sum(merged) == Sum(retained) + Sum(current - left)
  }

  lemma MergedNext(retained: Capabilities, current: Capabilities, left: set<string>, merged: Capabilities, total: nat,
                   key: string)
    requires retained.Keys !! current.Keys && MergedSoFar(retained, current, left, merged, total) && key in left
    ensures key !in merged && total + Charge(key, current[key]) <= Sum(retained) + Sum(current)
    ensures MergedSoFar(retained, current, left - {key}, merged[key := current[key]], total + Charge(key, current[key]))
  {
    MergeStep(retained, current, left, key);
    SumTake(current, left, key);
    SumAdd(merged, key, current[key]);
  }

  lemma MergedAtFirst(retained: Capabilities, current: Capabilities)
    ensures MergedSoFar(retained, current, current.Keys, retained, Sum(retained))
  {
    assert current - current.Keys == map[];
    assert retained + map[] == retained;
  }

  lemma MergedAtLast(retained: Capabilities, current: Capabilities, merged: Capabilities, total: nat)
    requires MergedSoFar(retained, current, {}, merged, total)
    ensures merged == retained + current && total == Sum(merged) == Sum(retained) + Sum(current)
  {
    assert current - {} == current;
  }

  /** Moves the current capabilities into the retained ones. The overflow branch is dead. */
  method Merge(retained: Capabilities, bytes: nat, current: Capabilities) returns (r: Result<(Capabilities, nat)>)
    requires retained.Keys !! current.Keys && bytes == Sum(retained) && bytes + Sum(current) <= MAX_INT64
    ensures r.Ok? && r.value.0 == retained + current && r.value.1 == Sum(r.value.0) == bytes + Sum(current)
  {
    var merged, total: nat, left := retained, bytes, current.Keys;
    MergedAtFirst(retained, current);
    while left != {}
      invariant MergedSoFar(retained, current, left, merged, total)
      decreases |left|
    {
      var key :| key in left;
      MergedNext(retained, current, left, merged, total, key);
      if key !in merged {
        var charge := CapabilityCharge(key, current[key]);
        if charge.Err? || total > MAX_INT64 - charge.value {
          return Err(ResourceLimit);
        }
        merged, total := merged[key := current[key]], total + charge.value;
      }
      left := left - {key};
    }
    MergedAtLast(retained, current, merged, total);
    return Ok((merged, total));
  }

  lemma RemoveStep(retained: Capabilities, gone: set<string>, key: string)
    ensures (retained - gone) - {key} == retained - (gone + {key})
    ensures key !in retained - gone ==> retained - gone == retained - (gone + {key})
  {
  }

  /** Takes out what the next revision carries itself. The underflow branch is dead. */
  method Remove(retained: Capabilities, bytes: nat, next: Capabilities) returns (r: Result<(Capabilities, nat)>)
    requires bytes == Sum(retained) <= MAX_INT64
    ensures r.Ok? && r.value.0 == retained - next.Keys && r.value.1 == Sum(r.value.0)
  {
    var kept, total, left := retained, bytes, next.Keys;
    ghost var gone: set<string> := {};
    assert retained - gone == retained;
    while left != {}
      invariant gone + left == next.Keys && kept == retained - gone
      invariant total == Sum(kept) <= MAX_INT64
      decreases |left|
    {
      var key :| key in left;
      RemoveStep(retained, gone, key);
      if key in kept {
        SumRemove(kept, key);
        var charge := CapabilityCharge(key, kept[key]);
        if charge.Err? || charge.value > total {
          return Err(ResourceLimit);
        }
        kept, total := kept - {key}, total - charge.value;
      }
      left := left - {key};
      gone := gone + {key};
    }
    assert gone == next.Keys;
    return Ok((kept, total));
  }

  // ------------------------------------------------------------ what is promised

  /** What has to be kept beside the next revision: everything older that it does not carry. */
  function Kept(retained: Capabilities, current: Capabilities, next: Capabilities): (kept: Capabilities)
    ensures kept.Keys !! next.Keys
  {
    (retained + current) - next.Keys
  }

  /** The capability a key had in the last accepted bundle that carried it. */
  function Latest(accepted: seq<Bundle>, key: string): Option<Capability> {
    if accepted == [] then None
    else
      var last := accepted[|accepted| - 1].capabilities;
      if key in last then Some(last[key]) else Latest(accepted[..|accepted| - 1], key)
  }

  /** Nothing ever accepted is lost. */
  lemma {:induction false} AcceptedIsFound(accepted: seq<Bundle>, i: nat, key: string)
    requires i < |accepted| && key in accepted[i].capabilities
    ensures Latest(accepted, key).Some?
  {
    var last := |accepted| - 1;
    if key !in accepted[last].capabilities {
      AcceptedIsFound(accepted[..last], i, key);
    }
  }

  /** And nothing that was never accepted is found. */
  lemma {:induction false} FoundWasAccepted(accepted: seq<Bundle>, key: string) returns (i: nat)
    requires Latest(accepted, key).Some?
    ensures i < |accepted| && key in accepted[i].capabilities
            && accepted[i].capabilities[key] == Latest(accepted, key).value
    ensures forall j | i < j < |accepted| :: key !in accepted[j].capabilities
  {
    var last := |accepted| - 1;
    if key in accepted[last].capabilities {
      i := last;
    } else {
      i := FoundWasAccepted(accepted[..last], key);
    }
  }

  /** Why a newer bundle cannot follow the current revision. */
  function FollowError(current: Revision, bundle: Bundle, etag: string): Option<Error> {
    if bundle.revision < current.bundle.revision then Some(Rollback)
    else if bundle.revision == current.bundle.revision then
      if bundle != current.bundle then Some(SplitBrain) else None
    else if bundle.generation < current.bundle.generation then Some(Rollback)
    else if bundle.generation == current.bundle.generation
            && bundle.commit != current.bundle.commit then Some(SplitBrain)
    else if etag == current.etag && bundle != current.bundle then Some(Incompatible)
    else None
  }

  /** Accepted bundles never go back and never disagree at one revision or one generation. */
  ghost predicate InOrder(accepted: seq<Bundle>) {
    forall i, j | 0 <= i < j < |accepted| ::
      && accepted[i].revision <= accepted[j].revision
      && (accepted[i].revision == accepted[j].revision ==> accepted[i] == accepted[j])
      && accepted[i].generation <= accepted[j].generation
      && (accepted[i].generation == accepted[j].generation ==> accepted[i].commit == accepted[j].commit)
  }

  lemma InOrderAppend(accepted: seq<Bundle>, current: Revision, bundle: Bundle, etag: string)
    requires InOrder(accepted) && accepted != [] && accepted[|accepted| - 1] == current.bundle
    requires FollowError(current, bundle, etag).None?
    ensures InOrder(accepted + [bundle])
  {
  }

  /** A view that finds exactly the latest capability of every accepted key. */
  ghost predicate FindsLatest(accepted: seq<Bundle>, current: Capabilities, retained: Capabilities) {
    forall key ::
      Latest(accepted, key) ==
      if key in current then Some(current[key]) else if key in retained then Some(retained[key]) else None
  }

  lemma FindsLatestAppend(
    accepted: seq<Bundle>, current: Capabilities, retained: Capabilities, bundle: Bundle, retained': Capabilities)
    requires FindsLatest(accepted, current, retained) && current.Keys !! retained.Keys
    requires retained' == Kept(retained, current, bundle.capabilities)
    ensures FindsLatest(accepted + [bundle], bundle.capabilities, retained')
  {
    assert (accepted + [bundle])[..|accepted|] == accepted;
  }

  const MAXIMUM_RETAINED_BYTES: nat := 512 * 1024 * 1024

  /** A revision and what is retained beside it, after these bundles were accepted. */
  ghost predicate Sound(
    maxCapabilities: nat, maxBytes: nat, current: Revision, retained: Capabilities, accepted: seq<Bundle>)
  {
    && InOrder(accepted) && accepted != [] && accepted[|accepted| - 1] == current.bundle
    && current.capabilityBytes == Sum(current.bundle.capabilities)
    && current.bundle.capabilities.Keys !! retained.Keys
    && |current.bundle.capabilities| + |retained| <= maxCapabilities
    && Sum(current.bundle.capabilities) + Sum(retained) <= maxBytes
    && FindsLatest(accepted, current.bundle.capabilities, retained)
  }

  /** What installing `next` over `current` does, and when it may. */
  ghost predicate Installs(
    maxCapabilities: nat, maxBytes: nat, current: Option<Revision>, retained: Capabilities,
    next: Revision, kept: Capabilities)
  {
    && next.capabilityBytes == Sum(next.bundle.capabilities) <= maxBytes
    && |next.bundle.capabilities| <= maxCapabilities
    && match current
       case None => kept == map[]
       case Some(revision) =>
         && FollowError(revision, next.bundle, next.etag).None?
         && if next.bundle.revision == revision.bundle.revision then kept == retained
            else
              && kept == Kept(retained, revision.bundle.capabilities, next.bundle.capabilities)
              && |next.bundle.capabilities| + |kept| <= maxCapabilities
              && Sum(next.bundle.capabilities) + Sum(kept) <= maxBytes
  }

  /** Accepting these bundles one after the other leads to this state. */
  ghost predicate Reached(
    maxCapabilities: nat, maxBytes: nat, accepted: seq<Bundle>, current: Option<Revision>, retained: Capabilities)
    decreases |accepted|, 1
  {
    if accepted == [] then current.None? && retained == map[]
    else ReachedByInstall(maxCapabilities, maxBytes, accepted, current, retained)
  }

  ghost predicate ReachedByInstall(
    maxCapabilities: nat, maxBytes: nat, accepted: seq<Bundle>, current: Option<Revision>, retained: Capabilities)
    requires accepted != []
    decreases |accepted|, 0
  {
    var last := |accepted| - 1;
    && current.Some? && current.value.bundle == accepted[last]
    && exists before, kept ::
         && Reached(maxCapabilities, maxBytes, accepted[..last], before, kept)
         && Installs(maxCapabilities, maxBytes, before, kept, current.value, retained)
  }

  lemma ReachedNext(
    maxCapabilities: nat, maxBytes: nat, accepted: seq<Bundle>, current: Option<Revision>, retained: Capabilities,
    next: Revision, kept: Capabilities)
    requires Reached(maxCapabilities, maxBytes, accepted, current, retained)
    requires Installs(maxCapabilities, maxBytes, current, retained, next, kept)
    ensures Reached(maxCapabilities, maxBytes, accepted + [next.bundle], Some(next), kept)
  {
    var longer := accepted + [next.bundle];
    assert longer[..|longer| - 1] == accepted && longer[|longer| - 1] == next.bundle;
    assert ReachedByInstall(maxCapabilities, maxBytes, longer, Some(next), kept);
  }

  lemma FirstIsSound(maxCapabilities: nat, maxBytes: nat, next: Revision, kept: Capabilities)
    requires Installs(maxCapabilities, maxBytes, None, map[], next, kept)
    ensures Sound(maxCapabilities, maxBytes, next, kept, [next.bundle])
  {
    FindsFirst(next.bundle);
  }

  lemma InstallKeepsSound(
    maxCapabilities: nat, maxBytes: nat, current: Revision, retained: Capabilities, accepted: seq<Bundle>,
    next: Revision, kept: Capabilities)
    requires Sound(maxCapabilities, maxBytes, current, retained, accepted)
    requires Installs(maxCapabilities, maxBytes, Some(current), retained, next, kept)
    ensures Sound(maxCapabilities, maxBytes, next, kept, accepted + [next.bundle])
  {
    InOrderAppend(accepted, current, next.bundle, next.etag);
    if next.bundle.revision == current.bundle.revision {
      FindsAgain(accepted, next.bundle, retained);
    } else {
      FindsLatestAppend(accepted, current.bundle.capabilities, retained, next.bundle, kept);
    }
  }

  /**
   After any sequence of accepted bundles: current and retained keys are disjoint, both
   budgets hold, bundles came in order, and every key finds its latest capability.
   */
  lemma {:induction false} ReachedIsSound(
    maxCapabilities: nat, maxBytes: nat, accepted: seq<Bundle>, current: Option<Revision>, retained: Capabilities)
    requires Reached(maxCapabilities, maxBytes, accepted, current, retained)
    ensures current.None? <==> accepted == []
    ensures current.None? ==> retained == map[]
    ensures current.Some? ==> Sound(maxCapabilities, maxBytes, current.value, retained, accepted)
    decreases |accepted|
  {
    if accepted != [] {
      var last := |accepted| - 1;
      assert accepted == accepted[..last] + [accepted[last]];
      assert ReachedByInstall(maxCapabilities, maxBytes, accepted, current, retained);
      var before, kept :|
        && Reached(maxCapabilities, maxBytes, accepted[..last], before, kept)
        && Installs(maxCapabilities, maxBytes, before, kept, current.value, retained);
      ReachedIsSound(maxCapabilities, maxBytes, accepted[..last], before, kept);
      if before.Some? {
        InstallKeepsSound(maxCapabilities, maxBytes, before.value, kept, accepted[..last], current.value, retained);
      } else {
        FirstIsSound(maxCapabilities, maxBytes, current.value, retained);
      }
    }
  }

  class Reader {
    const maxCapabilities: nat
    const maxBytes: nat

    var current: Option<Revision>
    var retained: Capabilities
    var retainedBytes: nat
    /** Every bundle accepted so far, oldest first. */
    ghost var accepted: seq<Bundle>

    ghost predicate Valid()
      reads this
    {
      && maxBytes <= MAXIMUM_RETAINED_BYTES && retainedBytes == Sum(retained)
      && Reached(maxCapabilities, maxBytes, accepted, current, retained)
    }

    /** The capabilities of the current revision. */
    function Held(): Capabilities
      reads this
    {
      if current.None? then map[] else current.value.bundle.capabilities
    }

    constructor (maxCapabilities: nat, maxBytes: nat)
      requires 1 <= maxBytes <= MAXIMUM_RETAINED_BYTES
      ensures Valid() && accepted == [] && this.maxCapabilities == maxCapabilities && this.maxBytes == maxBytes
    {
      this.maxCapabilities, this.maxBytes := maxCapabilities, maxBytes;
      current, retained, retainedBytes, accepted := None, map[], 0, [];
    }

    /** Finds what the latest accepted bundle with this key granted for it. */
    function FindCapability(key: string): (found: Option<Capability>)
      requires Valid()
      reads this
      ensures found == Latest(accepted, key)
    {
      ReachedIsSound(maxCapabilities, maxBytes, accepted, current, retained);
      if current.Some? && key in current.value.bundle.capabilities then Some(current.value.bundle.capabilities[key])
      else if key in retained then Some(retained[key])
      else None
    }

    ghost predicate Fits(next: Capabilities, kept: Capabilities) {
      |next| + |kept| <= maxCapabilities && Sum(next) + Sum(kept) <= maxBytes
    }

    /** The exact condition under which a bundle is accepted. */
    ghost predicate Acceptable(bundle: Bundle, etag: string)
      reads this
    {
      && Unconditional(bundle.capabilities)
      && |bundle.capabilities| <= maxCapabilities && Sum(bundle.capabilities) <= maxBytes
      && (current.Some? ==>
            && FollowError(current.value, bundle, etag).None?
            && (bundle.revision > current.value.bundle.revision ==>
                  Fits(bundle.capabilities, Kept(retained, Held(), bundle.capabilities))))
    }

    /** Computes what has to be kept beside the next revision, or that it does not fit. */
    method Retire(next: Capabilities, nextBytes: nat) returns (r: Result<(Capabilities, nat)>)
      requires Valid() && current.Some? && nextBytes == Sum(next) <= maxBytes && |next| <= maxCapabilities
      ensures var kept := Kept(retained, Held(), next);
              r == if Fits(next, kept) then Ok((kept, Sum(kept))) else Err(ResourceLimit)
    {
      ReachedIsSound(maxCapabilities, maxBytes, accepted, current, retained);
      var merge := Merge(retained, retainedBytes, current.value.bundle.capabilities);
      var removal := Remove(merge.value.0, merge.value.1, next);
      var kept := removal.value;
      if |kept.0| > maxCapabilities || kept.1 > maxBytes || |next| > maxCapabilities - |kept.0|
         || nextBytes > maxBytes - kept.1 {
        return Err(ResourceLimit);
      }
      return Ok(kept);
    }

    /** Swaps in the next revision together with what is retained beside it. */
    method Swap(next: Revision, kept: Capabilities, keptBytes: nat)
      requires Valid() && Installs(maxCapabilities, maxBytes, current, retained, next, kept) && keptBytes == Sum(kept)
      modifies this
      ensures Valid() && current == Some(next) && retained == kept && accepted == old(accepted) + [next.bundle]
    {
      ReachedNext(maxCapabilities, maxBytes, accepted, current, retained, next, kept);
      current, retained, retainedBytes, accepted := Some(next), kept, keptBytes, accepted + [next.bundle];
    }

    /**
     Installs a bundle, or changes nothing. It is accepted exactly when it is well formed,
     follows the current revision and leaves room for every key accepted before.
     */
    method InstallBundle(bundle: Bundle, version: Version) returns (r: Result<()>)
      requires Valid()
      modifies this
      ensures Valid()
      ensures r.Ok? <==> old(Acceptable(bundle, version.etag))
      ensures r.Ok? ==>
                && accepted == old(accepted) + [bundle]
                && current == Some(Revision(bundle, version.etag, version.versionId, Sum(bundle.capabilities)))
                && retained == if old(current).Some? && bundle.revision > old(current).value.bundle.revision
                               then Kept(old(retained), old(Held()), bundle.capabilities) else old(retained)
      ensures r.Err? ==>
                current == old(current) && retained == old(retained) && retainedBytes == old(retainedBytes)
                && accepted == old(accepted)
    {
      var bytes :- ValidateCapabilities(bundle.capabilities);
      if |bundle.capabilities| > maxCapabilities || bytes > maxBytes {
        return Err(ResourceLimit);
      }
      var next := Revision(bundle, version.etag, version.versionId, bytes);
      if current.None? {
        ReachedIsSound(maxCapabilities, maxBytes, accepted, current, retained);
        Swap(next, retained, retainedBytes);
        return Ok(());
      }
      var error := FollowError(current.value, bundle, version.etag);
      if error.Some? {
        return Err(error.value);
      }
      if bundle.revision == current.value.bundle.revision {
        Swap(next, retained, retainedBytes);
        return Ok(());
      }
      var kept :- Retire(bundle.capabilities, bytes);
      Swap(next, kept.0, kept.1);
      return Ok(());
    }
  }

  lemma FindsFirst(bundle: Bundle)
    ensures FindsLatest([bundle], bundle.capabilities, map[])
  {
    assert [bundle][..0] == [];
  }

  lemma FindsAgain(accepted: seq<Bundle>, bundle: Bundle, retained: Capabilities)
    requires FindsLatest(accepted, bundle.capabilities, retained)
    ensures FindsLatest(accepted + [bundle], bundle.capabilities, retained)
  {
    assert (accepted + [bundle])[..|accepted|] == accepted;
  }
}
