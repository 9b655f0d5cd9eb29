/** The mount table of the virtual file system (kernel/fs/fs.c): a linked list of mount points and
    an array of file systems that stay in step. */
module MountTable {
  import opened Mounts

  const MAX_MOUNTED: nat := 64
  const FS_TYPES: nat := 10

  datatype Option<+T> = None | Some(value: T)

  class Filesystem {
    const kind: nat
    var refCount: nat

    constructor (kind: nat)
      ensures this.kind == kind && refCount == 1
    {
      this.kind := kind;
      refCount := 1;
    }
  }

  class MountPoint {
    const path: string
    const fs: Filesystem
    var next: MountPoint?

    constructor (path: string, fs: Filesystem, next: MountPoint?)
      ensures this.path == path && this.fs == fs && this.next == next
    {
      this.path := path;
      this.fs := fs;
      this.next := next;
    }
  }

  /** Node i of a list; null past the end. */
  function NodeAt(nodes: seq<MountPoint>, i: nat): MountPoint? {
    if i < |nodes| then nodes[i] else null
  }

  function TableOf(nodes: seq<MountPoint>): (ms: seq<Mount<Filesystem>>)
    ensures |ms| == |nodes|
    ensures forall i :: 0 <= i < |nodes| ==> ms[i] == Mount(nodes[i].path, nodes[i].fs)
  {
    seq(|nodes|, i requires 0 <= i < |nodes| => Mount(nodes[i].path, nodes[i].fs))
  }

  /** Each node points to the one after it. */
  ghost predicate Chain(nodes: seq<MountPoint>)
    reads nodes
  {
    forall i :: 0 <= i < |nodes| ==> nodes[i].next == NodeAt(nodes, i + 1)
  }

  /** No node, path or file system occurs twice. */
  ghost predicate AllDistinct(nodes: seq<MountPoint>) {
    forall i, j :: 0 <= i < j < |nodes| ==>
                     nodes[i] != nodes[j] && nodes[i].path != nodes[j].path && nodes[i].fs != nodes[j].fs
  }

  /** Slot i holds the file system of the i-th oldest mount; slots beyond are empty. */
  ghost predicate InStep(slots: seq<Filesystem?>, nodes: seq<MountPoint>) {
    && |nodes| <= |slots|
    && (forall i :: 0 <= i < |nodes| ==> slots[i] == nodes[|nodes| - 1 - i].fs)
    && (forall i :: |nodes| <= i < |slots| ==> slots[i] == null)
  }

  lemma LookupNone(ms: seq<Mount<Filesystem>>, path: string)
    ensures Lookup(ms[..0], path) == 0
  {
  }

  lemma NotMounted(nodes: seq<MountPoint>, path: string)
    requires Find(TableOf(nodes), path) == |nodes|
    ensures forall n :: n in nodes ==> n.path != path
  {
    forall n | n in nodes ensures n.path != path {
      var i :| 0 <= i < |nodes| && nodes[i] == n;
      assert TableOf(nodes)[i].path == n.path;
    }
  }

  lemma TableAdd(nodes: seq<MountPoint>, m: MountPoint)
    ensures TableOf([m] + nodes) == Added(TableOf(nodes), m.path, m.fs)
  {
  }

  lemma DistinctAdd(nodes: seq<MountPoint>, m: MountPoint)
    requires AllDistinct(nodes)
    requires forall n :: n in nodes ==> n != m && n.path != m.path && n.fs != m.fs
    ensures AllDistinct([m] + nodes)
  {
  }

  lemma InStepAdd(slots: seq<Filesystem?>, nodes: seq<MountPoint>, m: MountPoint)
    requires InStep(slots, nodes) && |nodes| < |slots|
    ensures InStep(slots[|nodes| := m.fs], [m] + nodes)
  {
  }

  /** In the array, the file system of mount k sits at the mirrored index and nowhere else. */
  lemma SlotOf(slots: seq<Filesystem?>, nodes: seq<MountPoint>, k: nat, i: nat)
    requires InStep(slots, nodes) && AllDistinct(nodes) && k < |nodes| && i < |nodes|
    ensures slots[i] == nodes[k].fs <==> i == |nodes| - 1 - k
  {
    var j := |nodes| - 1 - i;
    assert slots[i] == nodes[j].fs;
    assert j < k ==> nodes[j].fs != nodes[k].fs;
    assert k < j ==> nodes[k].fs != nodes[j].fs;
  }

  lemma InStepRemove(slots: seq<Filesystem?>, slots': seq<Filesystem?>, nodes: seq<MountPoint>, k: nat)
    requires InStep(slots, nodes) && k < |nodes| && |slots'| == |slots|
    requires var at, n := |nodes| - 1 - k, |nodes|;
             && (forall x :: 0 <= x < at ==> slots'[x] == slots[x])
             && (forall x :: at <= x < n - 1 ==> slots'[x] == slots[x + 1])
             && (forall x :: n - 1 <= x < |slots| ==> slots'[x] == null)
    ensures InStep(slots', Removed(nodes, k))
  {
    var ns, n := Removed(nodes, k), |nodes|;
    forall i | 0 <= i < n - 1 ensures slots'[i] == ns[n - 2 - i].fs {
      if i < n - 1 - k { assert slots[i] == nodes[n - 1 - i].fs; }
      else { assert slots[i + 1] == nodes[n - 2 - i].fs; }
    }
  }

  lemma DistinctRemove(nodes: seq<MountPoint>, k: nat)
    requires AllDistinct(nodes) && k < |nodes|
    ensures AllDistinct(Removed(nodes, k))
  {
  }

  lemma TableRemove(nodes: seq<MountPoint>, k: nat)
    requires k < |nodes|
    ensures TableOf(Removed(nodes, k)) == Removed(TableOf(nodes), k)
  {
  }

  /** n is mounted, its non-empty path is a prefix of the given one, and no longer mount path is. */
  ghost predicate LongestMatch(nodes: seq<MountPoint>, path: string, n: MountPoint) {
    && n in nodes && n.path != [] && n.path <= path
    && forall m :: m in nodes && m.path <= path ==> |m.path| <= |n.path|
  }

  /** The scan over a table of distinct paths, in terms of its nodes. */
  lemma ScanMeans(nodes: seq<MountPoint>, path: string)
    requires AllDistinct(nodes)
    ensures var k := Lookup(TableOf(nodes), path);
            && (k == |nodes| <==> forall n :: n in nodes && n.path <= path ==> n.path == [])
            && (k < |nodes| ==> LongestMatch(nodes, path, nodes[k]))
  {
    hide Lookup;
    var ms := TableOf(nodes);
    LookupIsBest(ms, path);
    var k := Lookup(ms, path);
    if k < |nodes| {
      assert ms[k].path == nodes[k].path;
      forall m | m in nodes && m.path <= path ensures |m.path| <= |nodes[k].path| {
        var j :| 0 <= j < |nodes| && nodes[j] == m;
        assert ms[j].path == m.path;
      }
    } else {
      forall n | n in nodes && n.path <= path ensures n.path == [] {
        var j :| 0 <= j < |nodes| && nodes[j] == n;
        assert ms[j].path == n.path;
      }
    }
  }

  /** The longest match of a mounted path is the mount itself. */
  lemma OwnMatch(nodes: seq<MountPoint>, path: string)
    requires AllDistinct(nodes) && nodes != [] && nodes[0].path == path != []
    ensures forall n :: LongestMatch(nodes, path, n) ==> n == nodes[0]
    ensures !(forall n :: n in nodes && n.path <= path ==> n.path == [])
  {
    forall n | LongestMatch(nodes, path, n) ensures n == nodes[0] {
      var i :| 0 <= i < |nodes| && nodes[i] == n;
      assert nodes[0] in nodes && nodes[0].path <= path;
      assert n.path == path;
    }
    assert nodes[0] in nodes && nodes[0].path <= path;
  }

  /** Exactly the flagged elements are kept. */
  lemma {:induction false} KeptMembers<T>(s: seq<T>, keep: seq<bool>, x: T)
    requires |s| == |keep|
    ensures x in Kept(s, keep) <==> exists i :: 0 <= i < |s| && keep[i] && s[i] == x
    ensures |Kept(s, keep)| <= |s|
  {
    if s != [] {
      var n := |s| - 1;
      KeptMembers(s[..n], keep[..n], x);
      assert forall i :: 0 <= i < n ==> s[..n][i] == s[i] && keep[..n][i] == keep[i];
    }
  }

  /** The elements whose flag is set, in order. */
  function Kept<T>(s: seq<T>, keep: seq<bool>): seq<T>
    requires |s| == |keep|
  {
    if s == [] then []
    else Kept(s[..|s| - 1], keep[..|s| - 1]) + if keep[|s| - 1] then [s[|s| - 1]] else []
  }

  lemma KeptNext<T>(s: seq<T>, keep: seq<bool>, i: nat, flag: bool)
    requires |keep| == i < |s|
    ensures Kept(s[..i + 1], keep + [flag]) == Kept(s[..i], keep) + if flag then [s[i]] else []
  {
    assert s[..i + 1][..i] == s[..i] && (keep + [flag])[..i] == keep;
  }

  /** If nothing is kept, nothing is left: shutdown empties the table. */
  lemma {:induction false} KeptNothing<T>(s: seq<T>, keep: seq<bool>)
    requires |keep| == |s|
    ensures Kept(s, keep) == [] <==> forall i :: 0 <= i < |s| ==> !keep[i]
  {
    if s != [] {
      var n := |s| - 1;
      KeptNothing(s[..n], keep[..n]);
      assert forall i :: 0 <= i < n ==> keep[..n][i] == keep[i];
    }
  }

  /** Looking for the path of node k finds node k. */
  lemma FindNode(nodes: seq<MountPoint>, k: nat)
    requires AllDistinct(nodes) && k < |nodes|
    ensures Find(TableOf(nodes), nodes[k].path) == k
  {
    var ms := TableOf(nodes);
    var f := Find(ms, nodes[k].path);
    assert ms[k].path == nodes[k].path;
    assert f < |ms| && ms[f].path == nodes[f].path;
  }

  lemma NodePresent(nodes: seq<MountPoint>, i: nat)
    requires i <= |nodes|
    ensures NodeAt(nodes, i) == null <==> i == |nodes|
    ensures i < |nodes| ==> NodeAt(nodes, i) == nodes[i]
  {
  }

  /** The list once the first |keep| nodes of `all` have been dealt with. */
  ghost predicate Progress(all: seq<MountPoint>, keep: seq<bool>, nodes: seq<MountPoint>) {
    |keep| <= |all| && nodes == Kept(all[..|keep|], keep) + all[|keep|..]
  }

  lemma ProgressStart(all: seq<MountPoint>)
    ensures Progress(all, [], all)
  {
  }

  /** The next node stands at index k; keeping it or removing it is progress. */
  lemma ProgressStep(all: seq<MountPoint>, keep: seq<bool>, nodes: seq<MountPoint>, stays: bool) returns (k: nat)
    requires Progress(all, keep, nodes) && |keep| < |all|
    ensures k < |nodes| && nodes[k] == all[|keep|] && NodeAt(nodes, k + 1) == NodeAt(all, |keep| + 1)
    ensures Progress(all, keep + [stays], if stays then nodes else Removed(nodes, k))
  {
    hide Kept;
    var i, done := |keep|, Kept(all[..|keep|], keep);
    k := |done|;
    KeptNext(all, keep, i, stays);
    ListStep(all, done, i);
  }

  lemma ListStep(all: seq<MountPoint>, done: seq<MountPoint>, i: nat)
    requires i < |all|
    ensures var now, k := done + all[i..], |done|;
            && k < |now| && now[k] == all[i] && NodeAt(now, k + 1) == NodeAt(all, i + 1)
            && now == done + [all[i]] + all[i + 1..] && Removed(now, k) == done + [] + all[i + 1..]
  {
  }

  lemma ProgressEnd(all: seq<MountPoint>, keep: seq<bool>, nodes: seq<MountPoint>)
    requires Progress(all, keep, nodes) && |keep| == |all|
    ensures nodes == Kept(all, keep)
  {
    assert all[..|all|] == all;
  }

  lemma TakeNext<T>(s: seq<T>, i: nat)
    requires i < |s|
    ensures s[..i] + [s[i]] == s[..i + 1]
  {
  }

  lemma TakeAll<T>(s: seq<T>)
    ensures s[..|s|] == s
  {
  }

  ghost function StayingFlags(nodes: seq<MountPoint>, results: seq<int>): (keep: seq<bool>)
    requires |results| == |nodes|
    reads set n | n in nodes :: n.fs
    ensures |keep| == |nodes|
    ensures forall i :: 0 <= i < |nodes| ==> (keep[i] <==> nodes[i].fs.refCount > 1 || results[i] != 0)
  {
    seq(|nodes|, i requires 0 <= i < |nodes| reads set n | n in nodes :: n.fs =>
      nodes[i].fs.refCount > 1 || results[i] != 0)
  }

  lemma RemovedSubset<T>(s: seq<T>, k: nat)
    requires k < |s|
    ensures forall j :: 0 <= j < |Removed(s, k)| ==> Removed(s, k)[j] in s
  {
  }

  class Manager {
    var initialized: bool
    var head: MountPoint?
    const slots: array<Filesystem?>
    var mountedCount: nat
    /** File-system types with registered operations. */
    var registered: set<nat>
    /** The mount list, most recent first. */
    ghost var nodes: seq<MountPoint>
    /** The nodes this manager may relink: all it ever listed. */
    ghost var owned: set<MountPoint>

    ghost predicate Linked()
      reads this, nodes
    {
      head == NodeAt(nodes, 0) && Chain(nodes)
    }

    ghost predicate Valid()
      reads this, slots, nodes
    {
      && slots.Length == MAX_MOUNTED
      && mountedCount == |nodes|
      && Linked() && AllDistinct(nodes) && InStep(slots[..], nodes)
      && forall i :: 0 <= i < |nodes| ==> nodes[i] in owned
    }

    ghost function Table(): seq<Mount<Filesystem>>
      reads this
    {
      TableOf(nodes)
    }

    constructor (registered: set<nat>)
      ensures Valid() && Table() == [] && initialized && this.registered == registered && fresh(slots)
    {
      slots := new Filesystem?[MAX_MOUNTED](_ => null);
      head, mountedCount, nodes, owned, initialized := null, 0, [], {}, true;
      this.registered := registered;
    }

    /** Walks the list for a mount with this path. */
    method FindMount(path: string) returns (mount: MountPoint?, prev: MountPoint?, ghost k: nat)
      requires Valid()
      ensures mount == NodeAt(nodes, Find(Table(), path))
      ensures prev == if Find(Table(), path) == 0 then null else nodes[Find(Table(), path) - 1]
      ensures k == Find(Table(), path)
    {
      mount, prev, k := head, null, 0;
      while mount != null
        invariant k <= |nodes| && mount == NodeAt(nodes, k)
        invariant prev == if k == 0 then null else nodes[k - 1]
        invariant forall i :: 0 <= i < k ==> nodes[i].path != path
        decreases |nodes| - k
      {
        if mount.path == path { break; }
        prev := mount;
        mount := mount.next;
        k := k + 1;
      }
      assert k == Find(Table(), path);
    }

    /** What a valid manager keeps: the list links up, the array is the list reversed with empty slots
        behind, and no path or file system occurs twice. */
    lemma ValidMeans(i: nat, j: nat)
      requires Valid()
      ensures slots.Length == 64 && mountedCount == |nodes| <= 64
      ensures head == (if nodes == [] then null else nodes[0])
      ensures i < |nodes| ==> nodes[i].next == if i + 1 < |nodes| then nodes[i + 1] else null
      ensures i < |nodes| ==> slots[i] == nodes[|nodes| - 1 - i].fs
      ensures |nodes| <= i < 64 ==> slots[i] == null
      ensures i < j < |nodes| ==> nodes[i].path != nodes[j].path && nodes[i].fs != nodes[j].fs
    {
    }

    /** A path just mounted leads to its file system. */
    method MountThenGet(device: Option<string>, path: string, kind: nat,
                        fsMemory: bool, driver: int, pointMemory: bool) returns (r: int, fs: Filesystem?)
      requires Valid() && mountedCount < 64 && path != [] && |path| < 4095
      modifies this, slots
      ensures Valid() && (r == 0 ==> |nodes| > 0 && nodes[0].path == path && fs == nodes[0].fs)
    {
      hide Find, Lookup, InStep, Linked, Chain, TableOf, Added, Step;
      r := DoMount(device, Some(path), kind, fsMemory, driver, pointMemory);
      fs := GetFilesystem(Some(path));
      if r == 0 {
        OwnMatch(nodes, path);
      }
    }

    lemma NextNode(k: nat)
      requires Linked() && k < |nodes|
      ensures nodes[k].next == NodeAt(nodes, k + 1)
    {
    }

    /** fs_get_filesystem */
    method GetFilesystem(path: Option<string>) returns (r: Filesystem?)
      requires Valid()
      ensures r == if path.None? || !initialized || Lookup(Table(), path.value) == |nodes| then null
                   else Table()[Lookup(Table(), path.value)].fs
      ensures path.Some? && initialized ==>
                (r == null <==> forall n :: n in nodes && n.path <= path.value ==> n.path == [])
      ensures r != null ==> exists n :: LongestMatch(nodes, path.value, n) && n.fs == r
    {
      r := Scan(path);
      if path.Some? && initialized { ScanMeans(nodes, path.value); }
    }

    /** The scan of fs_get_filesystem. */
    method Scan(path: Option<string>) returns (r: Filesystem?)
      requires Valid()
      ensures r == if path.None? || !initialized || Lookup(Table(), path.value) == |nodes| then null
                   else Table()[Lookup(Table(), path.value)].fs
      ensures r == null <==> path.None? || !initialized || Lookup(Table(), path.value) == |nodes|
    {
      hide Lookup, AllDistinct, InStep, Chain;
      if path.None? || !initialized { return null; }
      var best: MountPoint? := null;
      var bestLen := 0;
      var mount := head;
      ghost var k, ms := 0, Table();
      LookupNone(ms, path.value);
      while mount != null
        invariant 0 <= k <= |nodes| && mount == NodeAt(nodes, k)
        invariant var b := Lookup(ms[..k], path.value);
                  if b == k then best == null && bestLen == 0
                  else best == nodes[b] && bestLen == |nodes[b].path|
        decreases |nodes| - k
      {
        LookupNext(ms, path.value, k);
        if mount.path <= path.value && |mount.path| > bestLen {
          best, bestLen := mount, |mount.path|;
        }
        NextNode(k);
        mount := mount.next;
        k := k + 1;
      }
      assert ms[..k] == ms;
      return if best == null then null else best.fs;
    }

    /** fs_mount. `fsMemory` and `pointMemory` say whether the two kernel allocations succeed and
        `driver` is what the file system's own mount operation returns. */
    method DoMount(device: Option<string>, path: Option<string>, kind: nat,
                   fsMemory: bool, driver: int, pointMemory: bool) returns (r: int)
      requires Valid() && mountedCount < 64
      requires path.Some? ==> |path.value| < 4095
      modifies this, slots
      ensures Valid()
      ensures r == if device.None? || path.None? || kind >= 10 || !initialized then -1
                   else if Find(old(Table()), path.value) < |old(nodes)| || kind !in registered || !fsMemory then -1
                   else if driver != 0 then driver
                   else if !pointMemory then -1 else 0
      ensures r != 0 ==> unchanged(this) && unchanged(slots)
      ensures r == 0 ==>
                && |nodes| > 0 && nodes[1..] == old(nodes) && fresh(nodes[0]) && fresh(nodes[0].fs)
                && Table() == Added(old(Table()), path.value, nodes[0].fs)
                && nodes[0].path == path.value && nodes[0].fs.kind == kind && nodes[0].fs.refCount == 1
                && Table() == Step(old(Table()), Request.DoMount(path.value, nodes[0].fs))
      ensures initialized == old(initialized) && registered == old(registered)
    {
      hide Find, Valid, AllDistinct, InStep, Linked, TableOf, Added;
      if device.None? || path.None? || kind >= FS_TYPES { return -1; }
      if !initialized { return -1; }
      var existing, _, k := FindMount(path.value);
      if existing != null { return -1; }
      if kind !in registered { return -1; }
      if !fsMemory { return -1; }
      var fs := new Filesystem(kind);
      if driver != 0 { return driver; }
      if !pointMemory { return -1; }
      var mount := new MountPoint(path.value, fs, head);
      NotMounted(nodes, path.value);
      TableAdd(nodes, mount);
      Insert(mount);
      r := 0;
    }

    /** Puts a new mount at the head of the list and in the next free slot. */
    method Insert(mount: MountPoint)
      requires Valid() && mountedCount < MAX_MOUNTED && mount.next == head
      requires forall n :: n in nodes ==> n != mount && n.path != mount.path && n.fs != mount.fs
      modifies `head, `mountedCount, `nodes, `owned, slots
      ensures Valid() && nodes == [mount] + old(nodes)
    {
      hide AllDistinct, InStep;
      DistinctAdd(nodes, mount);
      InStepAdd(slots[..], nodes, mount);
      head := mount;
      slots[mountedCount] := mount.fs;
      assert slots[..] == old(slots[..])[mountedCount := mount.fs];
      mountedCount := mountedCount + 1;
      nodes := [mount] + nodes;
      owned := owned + {mount};
    }

    /** Takes the file system of mount k out of the array and closes the gap. */
    method RemoveSlot(fs: Filesystem, ghost k: nat)
      requires slots.Length == MAX_MOUNTED && mountedCount == |nodes| && k < |nodes|
      requires AllDistinct(nodes) && InStep(slots[..], nodes) && nodes[k].fs == fs
      modifies slots, `mountedCount
      ensures mountedCount == |nodes| - 1
      ensures InStep(slots[..], Removed(nodes, k))
    {
      ghost var at, was := mountedCount - 1 - k, slots[..];
      for i := 0 to mountedCount
        invariant mountedCount == |nodes| && i <= at && slots[..] == was
      {
        if slots[i] == fs {
          assert i == at by { SlotOf(was, nodes, k, i); }
          for j := i to mountedCount - 1
            invariant mountedCount == |nodes|
            invariant forall x :: 0 <= x < i || j <= x < MAX_MOUNTED ==> slots[x] == was[x]
            invariant forall x :: i <= x < j ==> slots[x] == was[x + 1]
          {
            slots[j] := slots[j + 1];
          }
          slots[mountedCount - 1] := null;
          mountedCount := mountedCount - 1;
          InStepRemove(was, slots[..], nodes, k);
          return;
        }
        SlotOf(was, nodes, k, i);
      }
      assert false;
    }

    method Unlink(mount: MountPoint, prev: MountPoint?, ghost k: nat)
      requires Linked() && AllDistinct(nodes) && k < |nodes| && mount == nodes[k]
      requires prev == if k == 0 then null else nodes[k - 1]
      modifies `head, if prev == null then {} else {prev}
      ensures head == NodeAt(Removed(nodes, k), 0) && Chain(Removed(nodes, k))
      ensures forall n :: n in nodes && n != prev ==> n.next == old(n.next)
    {
      if prev != null {
        prev.next := mount.next;
      } else {
        head := mount.next;
      }
      ghost var ns := Removed(nodes, k);
      forall i | 0 <= i < |ns| ensures ns[i].next == NodeAt(ns, i + 1) {
        if i < k {
          assert ns[i] == nodes[i];
        } else {
          assert ns[i] == nodes[i + 1];
        }
      }
    }

    /** Unlinks mount k, whose predecessor is prev, and removes it from the array. */
    method Remove(mount: MountPoint, prev: MountPoint?, ghost k: nat)
      requires Valid() && k < |nodes| && mount == nodes[k]
      requires prev == if k == 0 then null else nodes[k - 1]
      modifies `head, `mountedCount, `nodes, slots, owned
      ensures Valid() && nodes == Removed(old(nodes), k)
      ensures forall n :: n in nodes && n != prev ==> n.next == old(n.next)
    {
      hide AllDistinct, InStep, Chain;
      Unlink(mount, prev, k);
      RemoveSlot(mount.fs, k);
      DistinctRemove(nodes, k);
      RemovedSubset(nodes, k);
      nodes := Removed(nodes, k);
    }

    /** fs_unmount; `driver` is what the file system's own unmount operation returns. */
    method Unmount(path: Option<string>, driver: int) returns (r: int)
      requires Valid()
      modifies `head, `mountedCount, `nodes, slots, owned
      ensures Valid()
      ensures var k := if path.None? then 0 else Find(old(Table()), path.value);
              r == if path.None? || !initialized || k == |old(nodes)| || old(nodes)[k].fs.refCount > 1 then -1
                   else driver
      ensures r != 0 ==> unchanged(this) && unchanged(slots) && forall n :: n in nodes ==> n.next == old(n.next)
      ensures r == 0 ==>
                var k := Find(old(Table()), path.value);
                && k < |old(nodes)| && nodes == Removed(old(nodes), k)
                && Table() == Unmounted(old(Table()), path.value)
                && Table() == Step(old(Table()), DoUnmount(path.value))
    {
      hide Find, TableOf, AllDistinct, InStep, Linked;
      if path.None? || !initialized { return -1; }
      var mount, prev, k := FindMount(path.value);
      if mount == null { return -1; }
      if mount.fs.refCount > 1 { return -1; }
      if driver != 0 { return driver; }
      TableRemove(nodes, k);
      Remove(mount, prev, k);
      r := 0;
    }

    /** Which mounts survive fs_shutdown: the busy ones and those whose driver refuses; results[i] is
        what the driver of the i-th mount returns. */
    ghost function Staying(results: seq<int>): (keep: seq<bool>)
      requires |results| == |nodes|
      reads this, set n | n in nodes :: n.fs
      ensures |keep| == |nodes|
      ensures forall i :: 0 <= i < |nodes| ==> (keep[i] <==> nodes[i].fs.refCount > 1 || results[i] != 0)
    {
      StayingFlags(nodes, results)
    }

    /** The unmount loop of fs_shutdown: exactly the staying mounts are left, in order. */
    method UnmountAll(results: seq<int>)
      requires Valid() && initialized && |results| == |nodes|
      modifies `head, `mountedCount, `nodes, slots, owned
      ensures Valid()
      ensures nodes == Kept(old(nodes), old(Staying(results)))
    {
      hide Valid, Progress, Removed, NodeAt, Kept, StayingFlags;
      ghost var all, keep := nodes, Staying(results);
      var mount, i := head, 0;
      ProgressStart(all);
      HeadNode();
      while mount != null
        invariant 0 <= i <= |all| && mount == NodeAt(all, i)
        invariant Valid() && Progress(all, keep[..i], nodes)
        decreases |all| - i
      {
        NodePresent(all, i);
        assert mount.fs.refCount == old(mount.fs.refCount);
        mount := UnmountNext(mount, results[i], all, keep, i);
        i := i + 1;
      }
      NodePresent(all, i);
      TakeAll(keep);
      ProgressEnd(all, keep, nodes);
    }

    /** One round of that loop. */
    method UnmountNext(mount: MountPoint, result: int, ghost all: seq<MountPoint>, ghost keep: seq<bool>, ghost i: nat)
      returns (next: MountPoint?)
      requires Valid() && initialized && i < |all| == |keep| && mount == all[i] && Progress(all, keep[..i], nodes)
      requires keep[i] <==> mount.fs.refCount > 1 || result != 0
      modifies `head, `mountedCount, `nodes, slots, owned
      ensures Valid() && next == NodeAt(all, i + 1) && Progress(all, keep[..i + 1], nodes)
    {
      hide Valid, Progress, Removed, NodeAt;
      ghost var k := ProgressStep(all, keep[..i], nodes, keep[i]);
      next := UnmountNode(mount, result, k);
      TakeNext(keep, i);
    }

    lemma HeadNode()
      requires Valid()
      ensures head == NodeAt(nodes, 0)
    {
    }

    /** Remembers the next node, then unmounts by path. */
    method UnmountNode(mount: MountPoint, result: int, ghost k: nat) returns (next: MountPoint?)
      requires Valid() && initialized && k < |nodes| && mount == nodes[k]
      modifies `head, `mountedCount, `nodes, slots, owned
      ensures Valid() && next == NodeAt(old(nodes), k + 1)
      ensures nodes == if mount.fs.refCount > 1 || result != 0 then old(nodes) else Removed(old(nodes), k)
    {
      hide AllDistinct, InStep, Chain, TableOf, Find, Removed;
      NextNode(k);
      FindNode(nodes, k);
      next := mount.next;
      var r := Unmount(Some(mount.path), result);
    }
  }
}
