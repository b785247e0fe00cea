/** How UpdateGoSum rewrites a module's go.sum table: for each dependency it
    swaps the entry under the version the module required for one under the
    dependency's new version, first for the directory hash (suffix "") and
    then for the go.mod hash (suffix "/go.mod"). */
module SumUpdate {
  import opened Wrappers
  import opened GoSum

  datatype SumError =
    | EmptyHash(path: string)
    | MissingEntry(key: ModVersion)

  /** The two wrappings UpdateGoSum puts around an updateSum failure. */
  datatype GoSumError =
    | InconsistentDirHash(cause: SumError)
    | InconsistentGoModHash(cause: SumError)

  /** A table and the error that stopped the update, if any. */
  datatype Outcome<E> = Outcome(sums: Sums, err: Option<E>)

  /** One dependency as UpdateGoSum sees it: its path, its new version, the
      version the module required before the release and its two fresh hashes. */
  datatype Pin = Pin(path: string, newVersion: string, oldVersion: string, dirHash: string, goModHash: string)

  /** `updateSum`: an empty hash fails before the table is touched; otherwise
      the new key is set to exactly `[hash]`, and then the old key is looked
      up and deleted, or reported missing with the new key left in place. */
  function UpdateSum(sums: Sums, path: string, newVersion: string, oldVersion: string, suffix: string, hash: string): (r: Outcome<SumError>)
    ensures |hash| == 0 ==> r.sums == sums && r.err == Some(EmptyHash(path))
    ensures |hash| > 0 && newVersion != oldVersion ==>
      var newKey := ModVersion(path, newVersion + suffix);
      var oldKey := ModVersion(path, oldVersion + suffix);
      && (r.err == None <==> oldKey in sums)
      && (r.err != None ==> r.err == Some(MissingEntry(oldKey)))
      && newKey in r.sums && r.sums[newKey] == [hash]
      && (r.err == None ==> oldKey !in r.sums)
      && (r.err != None ==> r.sums == sums[newKey := [hash]])
    ensures forall k: ModVersion :: k.path != path ==> (k in r.sums <==> k in sums) && (k in sums ==> r.sums[k] == sums[k])
    ensures KeptOutside(sums, r.sums, {ModVersion(path, newVersion + suffix), ModVersion(path, oldVersion + suffix)})
  {
    if |hash| == 0 then
      Outcome(sums, Some(EmptyHash(path)))
    else
      var newKey := ModVersion(path, newVersion + suffix);
      var inserted := sums[newKey := [hash]];
      var oldKey := ModVersion(path, oldVersion + suffix);
      SuffixInjective(newVersion, oldVersion, suffix);
      Swap(inserted, oldKey)
  }

  /** The lookup-and-delete half of `updateSum`. The table is never empty at
      that point, since the new key was just inserted, so the branch for an
      empty table is not reachable and is not modelled. */
  function Swap(inserted: Sums, oldKey: ModVersion): Outcome<SumError>
  {
    if oldKey !in inserted then Outcome(inserted, Some(MissingEntry(oldKey)))
    else Outcome(inserted - {oldKey}, None)
  }

  lemma SuffixInjective(a: string, b: string, suffix: string)
    ensures a != b ==> a + suffix != b + suffix
  {
    if a != b && |a| == |b| {
      var i :| 0 <= i < |a| && a[i] != b[i];
      assert (a + suffix)[i] == a[i];
      assert (b + suffix)[i] == b[i];
    }
  }

  /** When a module already requires the version being released, the old and
      new keys coincide and `updateSum` deletes the entry it just wrote: the
      call succeeds and the table no longer holds that key. */
  lemma SameVersionDropsEntry(sums: Sums, path: string, version: string, suffix: string, hash: string)
    requires |hash| > 0
    ensures var r := UpdateSum(sums, path, version, version, suffix, hash);
      r.err == None && ModVersion(path, version + suffix) !in r.sums
      && forall k :: k != ModVersion(path, version + suffix) ==> (k in r.sums <==> k in sums)
  {
  }

  /** `b` agrees with `a` on every key outside `keys`. */
  ghost predicate KeptOutside(a: Sums, b: Sums, keys: set<ModVersion>)
  {
    forall k: ModVersion :: k !in keys ==> (k in b <==> k in a) && (k in a ==> b[k] == a[k])
  }

  /** The four keys one dependency's update may touch: its directory-hash
      and go.mod-hash entries under the old and the new version. */
  function PinKeys(p: Pin): set<ModVersion>
  {
    {ModVersion(p.path, p.newVersion), ModVersion(p.path, p.oldVersion),
     ModVersion(p.path, p.newVersion + "/go.mod"), ModVersion(p.path, p.oldVersion + "/go.mod")}
  }

  /** The keys a list of dependencies may touch. */
  function PinsKeys(pins: seq<Pin>): set<ModVersion>
    decreases |pins|
  {
    if pins == [] then {} else PinsKeys(pins[..|pins| - 1]) + PinKeys(pins[|pins| - 1])
  }

  /** One dependency: the directory-hash entry, then the go.mod entry; the
      first failure stops the update. */
  function ApplyPin(sums: Sums, p: Pin): Outcome<GoSumError>
  {
    var dir := UpdateSum(sums, p.path, p.newVersion, p.oldVersion, "", p.dirHash);
    if dir.err.Some? then Outcome(dir.sums, Some(InconsistentDirHash(dir.err.value)))
    else
      var mod := UpdateSum(dir.sums, p.path, p.newVersion, p.oldVersion, "/go.mod", p.goModHash);
      if mod.err.Some? then Outcome(mod.sums, Some(InconsistentGoModHash(mod.err.value)))
      else Outcome(mod.sums, None)
  }

  /** The dependencies in order, stopping at the first failure. */
  function ApplyPins(sums: Sums, pins: seq<Pin>): Outcome<GoSumError>
    decreases |pins|
  {
    if pins == [] then Outcome(sums, None)
    else
      var before := ApplyPins(sums, pins[..|pins| - 1]);
      if before.err.Some? then before else ApplyPin(before.sums, pins[|pins| - 1])
  }

  /** One more dependency after the first `i`. */
  lemma ApplyPinsNext(sums: Sums, pins: seq<Pin>, i: nat)
    requires i < |pins| && ApplyPins(sums, pins[..i]).err == None
    ensures ApplyPins(sums, pins[..i + 1]) == ApplyPin(ApplyPins(sums, pins[..i]).sums, pins[i])
  {
    assert pins[..i + 1][..i] == pins[..i];
  }

  /** One dependency's update, successful or not, changes none of the
      other keys. */
  lemma ApplyPinFrame(sums: Sums, p: Pin)
    ensures KeptOutside(sums, ApplyPin(sums, p).sums, PinKeys(p))
  {
    assert p.newVersion + "" == p.newVersion;
    assert p.oldVersion + "" == p.oldVersion;
  }

  /** The update, successful or not, changes no key outside those of the
      dependencies: one insert and one delete per entry. */
  lemma {:induction false} ApplyPinsFrame(sums: Sums, pins: seq<Pin>)
    ensures KeptOutside(sums, ApplyPins(sums, pins).sums, PinsKeys(pins))
    decreases |pins|
  {
    if pins != [] {
      var init := pins[..|pins| - 1];
      ApplyPinsFrame(sums, init);
      var before := ApplyPins(sums, init);
      if before.err.None? {
        ApplyPinFrame(before.sums, pins[|pins| - 1]);
      }
    }
  }

  /** Once a dependency fails, the ones after it are not processed. */
  lemma {:induction false} ApplyPinsStops(sums: Sums, pins: seq<Pin>, k: nat)
    requires k <= |pins| && ApplyPins(sums, pins[..k]).err.Some?
    ensures ApplyPins(sums, pins) == ApplyPins(sums, pins[..k])
    decreases |pins| - k
  {
    if k < |pins| {
      var n := k + 1;
      assert pins[..n][..k] == pins[..k];
      ApplyPinsStops(sums, pins, n);
    } else {
      assert pins[..k] == pins;
    }
  }

  /** A dependency whose directory hash or go.mod hash is still empty makes
      the whole update fail. */
  lemma {:induction false} EmptyHashFails(sums: Sums, pins: seq<Pin>, i: nat)
    requires i < |pins| && (pins[i].dirHash == [] || pins[i].goModHash == [])
    ensures ApplyPins(sums, pins).err.Some?
    decreases |pins|
  {
    var n := |pins|;
    if i < n - 1 {
      EmptyHashFails(sums, pins[..n - 1], i);
    }
  }

  /** Keys of paths no dependency has are left alone, whatever happens. */
  lemma {:induction false} ApplyPinsKeepsOthers(sums: Sums, pins: seq<Pin>, k: ModVersion)
    requires forall p :: p in pins ==> p.path != k.path
    ensures var r := ApplyPins(sums, pins).sums;
      (k in r <==> k in sums) && (k in sums ==> r[k] == sums[k])
    decreases |pins|
  {
    if pins != [] {
      var init := pins[..|pins| - 1];
      assert forall p :: p in init ==> p in pins;
      ApplyPinsKeepsOthers(sums, init, k);
      assert pins[|pins| - 1] in pins;
    }
  }

  /** The dependency paths are distinct and each changes version, and no
      version holds a '/', as in a semantic version. */
  ghost predicate Separate(pins: seq<Pin>)
  {
    && (forall i, j :: 0 <= i < j < |pins| ==> pins[i].path != pins[j].path)
    && (forall p :: p in pins ==> p.newVersion != p.oldVersion && '/' !in p.newVersion && '/' !in p.oldVersion)
  }

  /** What a successful update leaves for dependency `p`. */
  ghost predicate Swapped(r: Sums, p: Pin)
  {
    && ModVersion(p.path, p.newVersion) in r && r[ModVersion(p.path, p.newVersion)] == [p.dirHash]
    && ModVersion(p.path, p.newVersion + "/go.mod") in r && r[ModVersion(p.path, p.newVersion + "/go.mod")] == [p.goModHash]
    && ModVersion(p.path, p.oldVersion) !in r
    && ModVersion(p.path, p.oldVersion + "/go.mod") !in r
  }

  /** What one dependency needs for its update to succeed. */
  ghost predicate Ready(sums: Sums, p: Pin)
  {
    && p.dirHash != [] && p.goModHash != []
    && ModVersion(p.path, p.oldVersion) in sums
    && ModVersion(p.path, p.oldVersion + "/go.mod") in sums
  }

  /** A version without '/' never ends in "/go.mod". */
  lemma GoModKeyDiffers(a: string, b: string)
    requires '/' !in a && '/' !in b
    ensures a + "" != b + "/go.mod"
  {
    assert a + "" == a;
    var s := b + "/go.mod";
    assert s[|b|] == '/';
    assert '/' in s;
  }

  /** One dependency whose two versions differ and hold no '/'. */
  lemma ApplyPinResult(sums: Sums, p: Pin)
    requires p.newVersion != p.oldVersion && '/' !in p.newVersion && '/' !in p.oldVersion
    ensures var r := ApplyPin(sums, p);
      && (r.err == None <==> Ready(sums, p))
      && (r.err == None ==> Swapped(r.sums, p))
      && (forall k: ModVersion :: k.path != p.path ==> (k in r.sums <==> k in sums) && (k in sums ==> r.sums[k] == sums[k]))
      && KeptOutside(sums, r.sums, PinKeys(p))
  {
    ApplyPinFrame(sums, p);
    GoModKeyDiffers(p.newVersion, p.oldVersion);
    GoModKeyDiffers(p.oldVersion, p.newVersion);
    GoModKeyDiffers(p.newVersion, p.newVersion);
    GoModKeyDiffers(p.oldVersion, p.oldVersion);
    assert p.newVersion + "" == p.newVersion;
    assert p.oldVersion + "" == p.oldVersion;
  }

  /** Two tables that agree on every key outside path `q`. */
  ghost predicate AgreeOutside(a: Sums, b: Sums, q: string)
  {
    forall k: ModVersion :: k.path != q ==> (k in b <==> k in a) && (k in a ==> b[k] == a[k])
  }

  /** A swap for another dependency survives an update confined to path `q`. */
  lemma SwappedKept(a: Sums, b: Sums, q: string, p: Pin)
    requires AgreeOutside(a, b, q) && p.path != q && Swapped(a, p)
    ensures Swapped(b, p)
  {
    assert ModVersion(p.path, p.newVersion).path != q;
    assert ModVersion(p.path, p.newVersion + "/go.mod").path != q;
    assert ModVersion(p.path, p.oldVersion).path != q;
    assert ModVersion(p.path, p.oldVersion + "/go.mod").path != q;
  }

  /** The last dependency, once all before it succeeded. */
  lemma LastPin(sums: Sums, init: seq<Pin>, last: Pin)
    requires Separate(init + [last])
    requires forall p :: p in init ==> p.path != last.path
    requires ApplyPins(sums, init).err == None
    requires forall p :: p in init ==> Swapped(ApplyPins(sums, init).sums, p)
    ensures var r := ApplyPin(ApplyPins(sums, init).sums, last);
      && (r.err == None <==> Ready(sums, last))
      && (r.err == None ==> forall p :: p in init + [last] ==> Swapped(r.sums, p))
  {
    assert last in init + [last];
    var before := ApplyPins(sums, init);
    ApplyPinResult(before.sums, last);
    var r := ApplyPin(before.sums, last);
    ApplyPinsKeepsOthers(sums, init, ModVersion(last.path, last.oldVersion));
    ApplyPinsKeepsOthers(sums, init, ModVersion(last.path, last.oldVersion + "/go.mod"));
    assert Ready(before.sums, last) <==> Ready(sums, last);
    assert AgreeOutside(before.sums, r.sums, last.path);
    forall p | p in init + [last] && r.err == None
      ensures Swapped(r.sums, p)
    {
      if p != last {
        assert p in init;
        SwappedKept(before.sums, r.sums, last.path, p);
      }
    }
  }

  /** Separate dependencies without the last one are still separate, and
      none of them has the last one's path. */
  lemma SeparateInit(pins: seq<Pin>)
    requires pins != [] && Separate(pins)
    ensures var init := pins[..|pins| - 1];
      && Separate(init)
      && pins == init + [pins[|pins| - 1]]
      && forall p :: p in init ==> p in pins && p.path != pins[|pins| - 1].path
  {
    var n := |pins|;
    var init := pins[..n - 1];
    forall p | p in init
      ensures p in pins && p.path != pins[n - 1].path
    {
      var i :| 0 <= i < n - 1 && init[i] == p;
      assert pins[i] == p;
    }
    assert pins == init + [pins[n - 1]];
  }

  /** With separate dependencies, the update succeeds exactly when every
      dependency has both hashes and both old entries, and then every
      dependency's old entries are swapped for the new ones. */
  lemma {:induction false} ApplyPinsResult(sums: Sums, pins: seq<Pin>)
    requires Separate(pins)
    ensures var r := ApplyPins(sums, pins);
      && (r.err == None <==> forall p :: p in pins ==> Ready(sums, p))
      && (r.err == None ==> forall p :: p in pins ==> Swapped(r.sums, p))
      && KeptOutside(sums, r.sums, PinsKeys(pins))
    decreases |pins|
  {
    ApplyPinsFrame(sums, pins);
    if pins != [] {
      var init := pins[..|pins| - 1];
      SeparateInit(pins);
      ApplyPinsResult(sums, init);
      if ApplyPins(sums, init).err == None {
        LastPin(sums, init, pins[|pins| - 1]);
      } else {
        var p :| p in init && !Ready(sums, p);
      }
    }
  }
}
