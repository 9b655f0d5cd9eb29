/** Mount lists as values (kernel/fs/fs.c): lookup by longest matching path, and mounting and
    unmounting over every history. */
module Mounts {

  /** A mount point: its path and the file system mounted there. */
  datatype Mount<F> = Mount(path: string, fs: F)

  predicate Matches(path: string, mountPath: string) {
    mountPath != [] && mountPath <= path
  }

  /** Mount k has the longest non-empty path that is a prefix of the given one, longer than any other. */
  ghost predicate Best<F>(ms: seq<Mount<F>>, path: string, k: nat) {
    && k < |ms| && ms[k].path != [] && ms[k].path <= path
    && forall j :: 0 <= j < |ms| && j != k && ms[j].path <= path ==> |ms[j].path| < |ms[k].path|
  }

  /** No non-empty mount path is a prefix. */
  ghost predicate NoMatch<F>(ms: seq<Mount<F>>, path: string) {
    forall j :: 0 <= j < |ms| && ms[j].path <= path ==> ms[j].path == []
  }

  ghost predicate DistinctPaths<F>(ms: seq<Mount<F>>) {
    forall i, j :: 0 <= i < j < |ms| ==> ms[i].path != ms[j].path
  }

  /** Two matches of the same length are the same path. */
  lemma SameLengthSamePath(path: string, p: string, q: string)
    requires Matches(path, p) && Matches(path, q) && |p| == |q|
    ensures p == q
  {
    assert p == path[..|p|] && q == path[..|q|];
  }

  /** The scan of fs_get_filesystem over a list: the index of the first strictly longest match,
      |ms| if nothing matches. */
  function Lookup<F>(ms: seq<Mount<F>>, path: string): (k: nat)
    ensures k <= |ms|
    decreases |ms|
  {
    if ms == [] then 0
    else
      var n := |ms| - 1;
      var k := Lookup(ms[..n], path);
      if Matches(path, ms[n].path) && (k == n || |ms[n].path| > |ms[k].path|) then n
      else if k == n then |ms| else k
  }

  /** One more round of the scan. */
  lemma LookupNext<F>(ms: seq<Mount<F>>, path: string, n: nat)
    requires n < |ms|
    ensures var k := Lookup(ms[..n], path);
            Lookup(ms[..n + 1], path) ==
            if Matches(path, ms[n].path) && (k == n || |ms[n].path| > |ms[k].path|) then n
            else if k == n then n + 1 else k
  {
    assert ms[..n + 1][..n] == ms[..n];
  }

  /** One more mount after no match. */
  lemma NoMatchNext<F>(ms: seq<Mount<F>>, path: string, n: nat)
    requires |ms| == n + 1 && NoMatch(ms[..n], path)
    ensures if Matches(path, ms[n].path) then Best(ms, path, n) else NoMatch(ms, path)
  {
    assert forall j :: 0 <= j < n ==> ms[..n][j] == ms[j];
  }

  /** One more mount after a match: the longer one wins. */
  lemma BestNext<F>(ms: seq<Mount<F>>, path: string, n: nat, k: nat)
    requires |ms| == n + 1 && Best(ms[..n], path, k) && ms[n].path != ms[k].path
    ensures if Matches(path, ms[n].path) && |ms[n].path| > |ms[k].path| then Best(ms, path, n) else Best(ms, path, k)
  {
    assert forall j :: 0 <= j < n ==> ms[..n][j] == ms[j];
    if Matches(path, ms[n].path) && |ms[n].path| == |ms[k].path| {
      SameLengthSamePath(path, ms[k].path, ms[n].path);
    }
  }

  /** With distinct mount paths the scan finds the unique longest match, and nothing exactly when
      no non-empty mount path is a prefix. */
  lemma {:induction false} LookupIsBest<F>(ms: seq<Mount<F>>, path: string)
    requires DistinctPaths(ms)
    ensures var k := Lookup(ms, path);
            if k == |ms| then NoMatch(ms, path) else Best(ms, path, k)
    decreases |ms|
  {
    hide Matches, Best;
    if ms != [] {
      var n := |ms| - 1;
      var k := Lookup(ms[..n], path);
      assert DistinctPaths(ms[..n]);
      LookupIsBest(ms[..n], path);
      if k == n { NoMatchNext(ms, path, n); } else { BestNext(ms, path, n, k); }
    }
  }

  /** A mounted path, and everything below it, finds its own mount unless a longer mount path is a
      prefix too. */
  lemma LookupFindsOwn<F>(ms: seq<Mount<F>>, k: nat, rest: string)
    requires DistinctPaths(ms) && k < |ms| && ms[k].path != []
    requires forall j :: 0 <= j < |ms| && ms[j].path <= ms[k].path + rest ==> |ms[j].path| <= |ms[k].path|
    ensures Lookup(ms, ms[k].path + rest) == k
  {
    hide Lookup;
    var path := ms[k].path + rest;
    LookupIsBest(ms, path);
    assert ms[k].path <= path;
  }

  lemma BestIgnoresOrder<F>(ms: seq<Mount<F>>, ms': seq<Mount<F>>, path: string, k: nat, k': nat)
    requires multiset(ms) == multiset(ms') && Best(ms, path, k) && Best(ms', path, k')
    ensures ms[k] == ms'[k']
  {
    assert ms[k] in multiset(ms') && ms'[k'] in multiset(ms);
    var j :| 0 <= j < |ms'| && ms'[j] == ms[k];
    var i :| 0 <= i < |ms| && ms[i] == ms'[k'];
  }

  lemma NoMatchIgnoresOrder<F>(ms: seq<Mount<F>>, ms': seq<Mount<F>>, path: string)
    requires multiset(ms) == multiset(ms') && NoMatch(ms, path)
    ensures NoMatch(ms', path)
  {
    forall j | 0 <= j < |ms'| ensures !Matches(path, ms'[j].path) {
      assert ms'[j] in multiset(ms);
      var i :| 0 <= i < |ms| && ms[i] == ms'[j];
    }
  }

  lemma {:induction false} CountOnce<F>(ms: seq<Mount<F>>, x: Mount<F>)
    requires DistinctPaths(ms)
    ensures multiset(ms)[x] <= 1
    decreases |ms|
  {
    if ms != [] {
      var n := |ms| - 1;
      CountOnce(ms[..n], x);
      assert ms == ms[..n] + [ms[n]];
      if ms[n] == x {
        forall i | 0 <= i < n ensures ms[..n][i] != x {
          assert ms[i].path != ms[n].path;
        }
        assert x !in ms[..n];
      }
    }
  }

  lemma CountTwice<T>(s: seq<T>, i: nat, j: nat)
    requires i < j < |s| && s[i] == s[j]
    ensures multiset(s)[s[i]] >= 2
  {
    assert s == s[..j] + s[j..];
    assert s[i] in s[..j] && s[j] in s[j..] by { assert s[..j][i] == s[i] && s[j..][0] == s[j]; }
  }

  lemma DistinctIgnoresOrder<F>(ms: seq<Mount<F>>, ms': seq<Mount<F>>)
    requires multiset(ms) == multiset(ms') && DistinctPaths(ms)
    ensures DistinctPaths(ms')
  {
    forall i, j | 0 <= i < j < |ms'| ensures ms'[i].path != ms'[j].path {
      if ms'[i] == ms'[j] {
        CountTwice(ms', i, j);
        CountOnce(ms, ms'[i]);
      } else {
        assert ms'[i] in multiset(ms) && ms'[j] in multiset(ms);
        var a :| 0 <= a < |ms| && ms[a] == ms'[i];
        var b :| 0 <= b < |ms| && ms[b] == ms'[j];
      }
    }
  }

  /** With distinct mount paths the answer does not depend on the order in which file systems were
      mounted: nothing is found in one list exactly if nothing is found in the other, and otherwise
      the same mount is. */
  lemma LookupIgnoresOrder<F>(ms: seq<Mount<F>>, ms': seq<Mount<F>>, path: string)
    requires multiset(ms) == multiset(ms') && DistinctPaths(ms)
    ensures var k, k' := Lookup(ms, path), Lookup(ms', path);
            (k == |ms| <==> k' == |ms'|) && (k < |ms| && k' < |ms'| ==> ms[k] == ms'[k'])
  {
    hide Lookup, Matches;
    var k, k' := Lookup(ms, path), Lookup(ms', path);
    DistinctIgnoresOrder(ms, ms');
    LookupIsBest(ms, path);
    LookupIsBest(ms', path);
    if k == |ms| { NoMatchIgnoresOrder(ms, ms', path); }
    if k' == |ms'| { NoMatchIgnoresOrder(ms', ms, path); }
    if k < |ms| && k' < |ms'| { BestIgnoresOrder(ms, ms', path, k, k'); }
  }

  // ----- histories

  /** Index of the mount with this path; |ms| if there is none. */
  function Find<F>(ms: seq<Mount<F>>, path: string): (k: nat)
    ensures k <= |ms|
    ensures k < |ms| ==> ms[k].path == path
    ensures forall i :: 0 <= i < k ==> ms[i].path != path
    decreases |ms|
  {
    if ms == [] || ms[0].path == path then 0 else 1 + Find(ms[1..], path)
  }

  function Removed<T>(s: seq<T>, k: nat): seq<T>
    requires k < |s|
  {
    s[..k] + s[k + 1..]
  }

  /** What a successful fs_mount or fs_unmount does to the list. */
  function Added<F>(ms: seq<Mount<F>>, path: string, fs: F): seq<Mount<F>> {
    [Mount(path, fs)] + ms
  }

  function Unmounted<F>(ms: seq<Mount<F>>, path: string): seq<Mount<F>> {
    var k := Find(ms, path);
    if k == |ms| then ms else Removed(ms, k)
  }

  /** Unmounting what was just mounted restores the list. */
  lemma MountThenUnmount<F>(ms: seq<Mount<F>>, path: string, fs: F)
    ensures Unmounted(Added(ms, path, fs), path) == ms
  {
    assert Find(Added(ms, path, fs), path) == 0;
  }

  datatype Request<F> = DoMount(path: string, fs: F) | DoUnmount(path: string)

  /** A request that the driver carries out: mounting is refused on a path already in use. */
  function Step<F>(ms: seq<Mount<F>>, q: Request<F>): seq<Mount<F>> {
    match q
    case DoMount(path, fs) => if Find(ms, path) < |ms| then ms else Added(ms, path, fs)
    case DoUnmount(path) => Unmounted(ms, path)
  }

  function History<F>(ms: seq<Mount<F>>, qs: seq<Request<F>>): seq<Mount<F>>
    decreases |qs|
  {
    if qs == [] then ms else History(Step(ms, qs[0]), qs[1..])
  }

  /** A history carries out its requests in turn. */
  lemma {:induction false} HistoryEnd<F>(ms: seq<Mount<F>>, qs: seq<Request<F>>, q: Request<F>)
    ensures History(ms, []) == ms
    ensures History(ms, qs + [q]) == Step(History(ms, qs), q)
    decreases |qs|
  {
    hide Step;
    if qs != [] {
      assert (qs + [q])[1..] == qs[1..] + [q];
      HistoryEnd(Step(ms, qs[0]), qs[1..], q);
    } else {
      assert (qs + [q])[1..] == [];
    }
  }

  /** Over every history mount paths stay distinct, so every lookup has a unique longest match or
      no match. */
  lemma {:induction false} HistoryKeepsDistinct<F>(ms: seq<Mount<F>>, qs: seq<Request<F>>, path: string)
    requires DistinctPaths(ms)
    ensures var ms' := History(ms, qs);
            DistinctPaths(ms') && if Lookup(ms', path) == |ms'| then NoMatch(ms', path) else Best(ms', path, Lookup(ms', path))
    decreases |qs|
  {
    if qs == [] {
      LookupIsBest(ms, path);
    } else {
      assert DistinctPaths(Step(ms, qs[0]));
      HistoryKeepsDistinct(Step(ms, qs[0]), qs[1..], path);
    }
  }
}
