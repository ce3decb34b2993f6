/**
 * `AsyncIO.Core.AsyncDirectory`: the recursive tree copy. It creates the
 * target folder, copies every file directly in the source with the file copy
 * of its overload, then creates and recursively fills one target folder per
 * source folder. Folder creation registers no undo action; every file copy
 * registers one.
 */
module CoreDirectory {
  import opened Paths
  import opened Outcomes
  import opened FileSystem
  import opened Host
  import opened UndoLog
  import opened Transactions
  import opened CoreFile

  /** The file copy a tree copy makes for each file. */
  datatype CopyKind =
    | Plain                        // `AsyncFile.Copy(source, target)`
    | Whole                        // `AsyncFile.CopyAsync(source, target)`
    | Buffered(bufferLength: int)  // `AsyncFile.Copy` / `CopyAsync` with a buffer length

  /** The file a successful copy of `node` leaves at the target. */
  function Copied(kind: CopyKind, node: Node, now: Time): Node
    requires node.FileNode?
  {
    match kind
    case Plain => node
    case Whole => FileNode(node.bytes, now)
    case Buffered(n) => FileNode(Transfer(node.bytes, if n < 0 then 0 else n), now)
  }

  /**
   * What one file copy of the given kind from `src` to `dst` did to the disk:
   * it changed or added entries only on the way to `dst`, never a folder at
   * `dst`, and when it succeeded `dst` holds the copy of the file at `src`.
   */
  ghost predicate FileCopyStep(before: Entries, after: Entries, kind: CopyKind, src: Path, dst: Path, now: Time, ok: bool) {
    && Extends(before, after, dst, now, kind.Whole?)
    && (forall q :: q in after && q !in before ==> Under(dst, q))
    && (dst in after && dst !in before ==> after[dst].FileNode?)
    && (forall q :: q in before && q != dst ==> after[q] == before[q])
    && (ok ==> IsFile(before, src) && dst in after && after[dst] == Copied(kind, before[src], now))
  }

  /** `DirectoryInfo.GetFiles` (`folders` false) and `GetDirectories` (`folders` true): names directly in `d`. */
  function Children(fs: Entries, d: Path, folders: bool): (r: set<Name>)
    ensures forall n :: n in r <==> Combine(d, n) in fs && fs[Combine(d, n)].DirNode? == folders
  {
    var r := set q | q in fs && |q| == |d| + 1 && Under(q, d) && fs[q].DirNode? == folders :: q[|d|];
    assert forall n :: n in r ==> Combine(d, n) in fs && fs[Combine(d, n)].DirNode? == folders by {
      forall n | n in r ensures Combine(d, n) in fs && fs[Combine(d, n)].DirNode? == folders {
        var q :| q in fs && |q| == |d| + 1 && Under(q, d) && fs[q].DirNode? == folders && q[|d|] == n;
        assert q == Combine(d, n);
      }
    }
    assert forall n :: Combine(d, n) in fs && fs[Combine(d, n)].DirNode? == folders ==> n in r by {
      forall n | Combine(d, n) in fs && fs[Combine(d, n)].DirNode? == folders ensures n in r {
        var q := Combine(d, n);
        assert q[|d|] == n;
      }
    }
    r
  }

  /** The path beneath `to` that `q` occupies beneath `from`. */
  function Rebase(q: Path, from: Path, to: Path): (r: Path)
    requires Under(q, from)
    ensures Under(r, to) && |r| == |to| + |q| - |from| && r[|to|..] == q[|from|..]
  {
    to + q[|from|..]
  }

  /** Everything in the tree at `d`. */
  ghost function Subtree(fs: Entries, d: Path): set<Path> {
    set q | q in fs && Under(q, d)
  }

  /** `f` and `g` hold the same tree at `d`. */
  ghost predicate SameBeneath(f: Entries, g: Entries, d: Path) {
    forall q :: Under(q, d) ==> (q in g <==> q in f) && (q in f ==> g[q] == f[q])
  }

  /** Every entry of the tree `S` of `src` has its copy at the same place in the tree `T` of `dst`. */
  ghost predicate Mirrors(src: Entries, dst: Entries, S: Path, T: Path, kind: CopyKind, now: Time) {
    forall q {:trigger Rebase(q, S, T)} :: q in src && Under(q, S) ==>
      && Rebase(q, S, T) in dst
      && (src[q].DirNode? ==> dst[Rebase(q, S, T)].DirNode?)
      && (src[q].FileNode? ==> dst[Rebase(q, S, T)] == Copied(kind, src[q], now))
  }

  /**
   * Every entry the copy added or changed beneath `T` stands for an entry of
   * the same sort beneath `S`: an entry of the target tree with no
   * counterpart in the source is left as it was.
   */
  ghost predicate FromSource(src: Entries, dst: Entries, S: Path, T: Path) {
    forall q {:trigger Rebase(q, T, S)} :: q in dst && (q !in src || dst[q] != src[q]) && Under(q, T) && q != T ==>
      Rebase(q, T, S) in src && (dst[q].DirNode? <==> src[Rebase(q, T, S)].DirNode?)
  }

  ghost predicate Distinct(log: seq<Option<UndoAction>>) {
    forall i, j :: 0 <= i < j < |log| ==> log[i] != log[j]
  }

  /** An entry for a path more than one level beneath `T`. */
  predicate Deep(x: Option<UndoAction>, T: Path) {
    x.Some? && |x.value.path| > |T| + 1
  }

  /** Entries for the files directly in `T` come before all deeper ones. */
  ghost predicate DirectFirst(log: seq<Option<UndoAction>>, T: Path) {
    forall i, j :: 0 <= i < j < |log| && Deep(log[i], T) ==> Deep(log[j], T)
  }

  /** A change made for `at` leaves alone every tree disjoint from `at`. */
  lemma ExtendsSparesDisjoint(f: Entries, g: Entries, at: Path, d: Path, now: Time, rewrites: bool)
    requires Extends(f, g, at, now, rewrites) && Disjoint(d, at)
    ensures SameBeneath(f, g, d)
  {
    forall q | Under(q, d) ensures (q in g <==> q in f) && (q in f ==> g[q] == f[q]) {
      if Under(q, at) {
        UnderComparable(q, d, at);
      } else if Under(at, q) {
        UnderTransitive(at, q, d);
      }
    }
  }

  lemma SiblingsDisjoint(d: Path, n: Name, m: Name)
    requires n != m
    ensures Disjoint(Combine(d, n), Combine(d, m))
  {
    assert Combine(d, n)[|d|] != Combine(d, m)[|d|];
  }

  /** A tree beneath `d` is disjoint from any tree disjoint from `d`. */
  lemma DisjointBeneath(a: Path, d: Path, b: Path)
    requires Under(a, d) && Disjoint(d, b)
    ensures Disjoint(a, b)
  {
    if Under(a, b) {
      UnderComparable(a, d, b);
    } else if Under(b, a) {
      UnderTransitive(b, a, d);
    }
  }

  /** Rebasing through a child folder is rebasing through its parent. */
  lemma RebaseChild(q: Path, S: Path, T: Path, n: Name)
    requires Under(q, Combine(S, n))
    ensures Under(q, S) && Rebase(q, Combine(S, n), Combine(T, n)) == Rebase(q, S, T)
  {
    UnderChild(q, S, n);
    assert q[|S|..] == [n] + q[|S| + 1..];
  }

  lemma SameBeneathTrans(f: Entries, g: Entries, h: Entries, d: Path)
    requires SameBeneath(f, g, d) && SameBeneath(g, h, d)
    ensures SameBeneath(f, h, d)
  {
  }

  /** A mirror depends only on the source tree and the target tree. */
  lemma MirrorsFrame(src: Entries, src': Entries, dst: Entries, dst': Entries, S: Path, T: Path, kind: CopyKind, now: Time)
    requires Mirrors(src, dst, S, T, kind, now)
    requires SameBeneath(src, src', S) && SameBeneath(dst, dst', T)
    ensures Mirrors(src', dst', S, T, kind, now)
  {
  }

  /** The tree at a child folder is strictly smaller than the tree at its parent. */
  lemma SubtreeShrinks(fs: Entries, d: Path, n: Name)
    requires d in fs
    ensures |Subtree(fs, Combine(d, n))| < |Subtree(fs, d)|
  {
    var small, big := Subtree(fs, Combine(d, n)), Subtree(fs, d);
    forall q | q in small ensures q in big {
      UnderChild(q, d, n);
    }
    assert d in big - small;
    assert big == small + (big - small);
    assert |big| == |small| + |big - small|;
  }

  /** `x` is the undo entry the tree copy of `S` to `T` registers for a file of `src` beneath `S`. */
  ghost predicate FromFile(x: Option<UndoAction>, src: Entries, S: Path, T: Path, now: Time) {
    && x.Some?
    && Under(x.value.path, T) && |x.value.path| > |T|
    && x.value == Entry(x.value.path, now)
    && IsFile(src, Rebase(x.value.path, T, S))
  }

  /** Every entry of `added` stands for a file of the source tree. */
  ghost predicate Registers(added: seq<Option<UndoAction>>, src: Entries, S: Path, T: Path, now: Time) {
    forall i :: 0 <= i < |added| ==> FromFile(added[i], src, S, T, now)
  }

  /** Every file strictly beneath `S` has its entry in `added`. */
  ghost predicate Covers(added: seq<Option<UndoAction>>, src: Entries, S: Path, T: Path, now: Time) {
    forall q {:trigger Rebase(q, S, T)} :: q in src && Under(q, S) && |q| > |S| && src[q].FileNode? ==>
      Some(Entry(Rebase(q, S, T), now)) in added
  }

  /** The entries for the files directly in `S`, in the order `names` were copied. */
  function DirectEntries(T: Path, names: seq<Name>, now: Time): seq<Option<UndoAction>>
  {
    if names == [] then []
    else DirectEntries(T, names[..|names| - 1], now) + [Some(Entry(Combine(T, names[|names| - 1]), now))]
  }

  /** The `i`th entry is the one for the `i`th name. */
  lemma {:induction false} DirectEntriesAt(T: Path, names: seq<Name>, now: Time)
    ensures |DirectEntries(T, names, now)| == |names|
    ensures forall i :: 0 <= i < |names| ==> DirectEntries(T, names, now)[i] == Some(Entry(Combine(T, names[i]), now))
    decreases |names|
  {
    if names != [] {
      DirectEntriesAt(T, names[..|names| - 1], now);
    }
  }

  lemma DirectEntriesRegisters(names: seq<Name>, src: Entries, S: Path, T: Path, now: Time)
    requires forall i :: 0 <= i < |names| ==> names[i] in Children(src, S, false)
    ensures Registers(DirectEntries(T, names, now), src, S, T, now)
    ensures forall x :: x in DirectEntries(T, names, now) ==> !Deep(x, T)
  {
    DirectEntriesAt(T, names, now);
    var e := DirectEntries(T, names, now);
    forall i | 0 <= i < |e| ensures FromFile(e[i], src, S, T, now) && !Deep(e[i], T) {
      assert Rebase(Combine(T, names[i]), T, S) == Combine(S, names[i]);
    }
  }

  lemma DirectEntriesDistinct(names: seq<Name>, T: Path, now: Time)
    requires Unique(names)
    ensures Distinct(DirectEntries(T, names, now))
  {
    DirectEntriesAt(T, names, now);
    var e := DirectEntries(T, names, now);
    forall i, j | 0 <= i < j < |e| ensures e[i] != e[j] {
      assert Combine(T, names[i])[|T|] != Combine(T, names[j])[|T|];
    }
  }

  lemma DirectEntriesCover(names: seq<Name>, T: Path, now: Time)
    ensures forall n :: n in names ==> Some(Entry(Combine(T, n), now)) in DirectEntries(T, names, now)
  {
    DirectEntriesAt(T, names, now);
    var e := DirectEntries(T, names, now);
    forall n | n in names ensures Some(Entry(Combine(T, n), now)) in e {
      var k :| 0 <= k < |names| && names[k] == n;
      assert e[k] == Some(Entry(Combine(T, n), now));
    }
  }

  lemma LogAssoc(a: seq<Option<UndoAction>>, b: seq<Option<UndoAction>>, c: seq<Option<UndoAction>>)
    ensures a + b + c == a + (b + c)
  {
  }

  lemma LogSplit(s: seq<Option<UndoAction>>, k: nat)
    requires k <= |s|
    ensures s == s[..k] + s[k..]
  {
  }

  /** Appending logs with no entry in common keeps them free of repeats. */
  lemma DistinctAppend(a: seq<Option<UndoAction>>, b: seq<Option<UndoAction>>)
    requires Distinct(a) && Distinct(b)
    requires forall i, j :: 0 <= i < |a| && 0 <= j < |b| ==> a[i] != b[j]
    ensures Distinct(a + b)
  {
  }

  lemma ChildrenFrame(f: Entries, g: Entries, S: Path, folders: bool)
    requires SameBeneath(f, g, S)
    ensures Children(f, S, folders) == Children(g, S, folders)
  {
    forall n ensures n in Children(f, S, folders) <==> n in Children(g, S, folders) {
      assert Under(Combine(S, n), S);
    }
  }

  lemma RegistersFrame(added: seq<Option<UndoAction>>, f: Entries, g: Entries, S: Path, T: Path, now: Time)
    requires SameBeneath(f, g, S) && Registers(added, f, S, T, now)
    ensures Registers(added, g, S, T, now)
  {
    forall i | 0 <= i < |added| ensures FromFile(added[i], g, S, T, now) {
      assert Under(Rebase(added[i].value.path, T, S), S);
    }
  }

  /** What a subtree copy registers, it registers for the whole tree. */
  lemma RegistersLift(added: seq<Option<UndoAction>>, f0: Entries, src: Entries, S: Path, T: Path, n: Name, now: Time)
    requires SameBeneath(f0, src, S)
    requires Registers(added, src, Combine(S, n), Combine(T, n), now)
    ensures Registers(added, f0, S, T, now)
    ensures forall i :: 0 <= i < |added| ==> Deep(added[i], T) && added[i].value.path[|T|] == n
  {
    forall i | 0 <= i < |added|
      ensures FromFile(added[i], f0, S, T, now) && Deep(added[i], T) && added[i].value.path[|T|] == n
    {
      var p := added[i].value.path;
      RebaseChild(p, T, S, n);
      UnderChild(p, T, n);
      assert Under(Rebase(p, T, S), S);
    }
  }

  /** What a subtree copy covers, it covers for the whole tree. */
  lemma CoversLift(added: seq<Option<UndoAction>>, f0: Entries, src: Entries, S: Path, T: Path, n: Name, now: Time)
    requires SameBeneath(f0, src, S)
    requires Covers(added, src, Combine(S, n), Combine(T, n), now)
    ensures forall q :: q in f0 && Under(q, Combine(S, n)) && |q| > |S| + 1 && f0[q].FileNode? ==>
              Some(Entry(Rebase(q, S, T), now)) in added
  {
    forall q | q in f0 && Under(q, Combine(S, n)) && |q| > |S| + 1 && f0[q].FileNode?
      ensures Some(Entry(Rebase(q, S, T), now)) in added
    {
      RebaseChild(q, S, T, n);
    }
  }

  lemma SameBeneathNarrow(f: Entries, g: Entries, d: Path, e: Path)
    requires SameBeneath(f, g, d) && Under(e, d)
    ensures SameBeneath(f, g, e) && SameBeneath(g, f, e)
  {
    forall q | Under(q, e) ensures Under(q, d) {
      UnderTransitive(q, e, d);
    }
  }

  /** The folder loop leaves the source tree, and so its size, as it was. */
  lemma DirsSubtree(f0: Entries, fs: Entries, S: Path, T: Path, kind: CopyKind, now: Time, done: set<Name>, ok: bool)
    requires DirsCopied(f0, fs, S, T, kind, now, done, ok)
    ensures Subtree(f0, S) == Subtree(fs, S)
  {
    SubtreeFrame(f0, fs, S);
  }

  lemma SubtreeFrame(f: Entries, g: Entries, d: Path)
    requires SameBeneath(f, g, d)
    ensures Subtree(f, d) == Subtree(g, d)
  {
  }

  /** Entries added in two rounds both come from the source. */
  lemma FromSourceTrans(f0: Entries, f1: Entries, f2: Entries, S: Path, T: Path, now: Time, rewrites: bool)
    requires FromSource(f0, f1, S, T) && FromSource(f1, f2, S, T)
    requires Extends(f0, f1, T, now, rewrites) && Extends(f1, f2, T, now, rewrites)
    requires SameBeneath(f0, f1, S)
    ensures FromSource(f0, f2, S, T)
  {
    forall q | q in f2 && (q !in f0 || f2[q] != f0[q]) && Under(q, T) && q != T
      ensures Rebase(q, T, S) in f0 && (f2[q].DirNode? <==> f0[Rebase(q, T, S)].DirNode?)
    {
      assert Under(Rebase(q, T, S), S);
    }
  }

  /** What the copy of a child tree adds beneath `T` comes from the source's child tree. */
  lemma FromSourceChild(f: Entries, g: Entries, S: Path, T: Path, n: Name, now: Time, rewrites: bool)
    requires Extends(f, g, Combine(T, n), now, rewrites) && IsDir(f, Combine(T, n))
    requires FromSource(f, g, Combine(S, n), Combine(T, n))
    ensures FromSource(f, g, S, T)
  {
    forall q | q in g && (q !in f || g[q] != f[q]) && Under(q, T) && q != T
      ensures Rebase(q, T, S) in f && (g[q].DirNode? <==> f[Rebase(q, T, S)].DirNode?)
    {
      if Under(q, Combine(T, n)) {
        RebaseChild(q, T, S, n);
      } else {
        assert false;
      }
    }
  }

  /** No name occurs twice in `names`. */
  predicate Unique(names: seq<Name>) {
    forall i, j :: 0 <= i < j < |names| ==> names[i] != names[j]
  }

  /** The loop over the names in `all`: `order` done, `names` still to do. */
  predicate Pending(all: set<Name>, names: set<Name>, order: seq<Name>) {
    && names <= all
    && Unique(order)
    && (forall i :: 0 <= i < |order| ==> order[i] in all && order[i] !in names)
    && (forall m :: m in all ==> m in names || m in order)
  }

  lemma PendingStep(all: set<Name>, names: set<Name>, order: seq<Name>, n: Name)
    requires Pending(all, names, order) && n in names
    ensures n in all && n !in order
    ensures Pending(all, names - {n}, order + [n])
  {
  }

  /** Moving `n` from the names to do to the names done. */
  lemma DoneStep(all: set<Name>, names: set<Name>, done: set<Name>, n: Name)
    requires names + done == all && names !! done && n in names
    ensures n !in done && (names - {n}) + (done + {n}) == all && (names - {n}) !! (done + {n})
  {
  }

  /** The log after one more file copy in a running or idle transaction. */
  lemma LogStep(log0: seq<Option<UndoAction>>, T: Path, order: seq<Name>, n: Name, now: Time, running: bool)
    ensures log0 + (if running then DirectEntries(T, order, now) else []) + (if running then [Some(Entry(Combine(T, n), now))] else [])
            == log0 + (if running then DirectEntries(T, order + [n], now) else [])
  {
    assert (order + [n])[..|order|] == order;
  }

  lemma OneBelow(q: Path, T: Path)
    requires Under(q, T) && |q| == |T| + 1
    ensures q == Combine(T, q[|T|])
  {
  }

  /**
   * The state the file loop of the tree copy keeps: beneath `T` it has added
   * only the files named in `order`, and while no copy failed, each of them
   * holds the copy of the file of that name in `S`.
   */
  ghost predicate FilesCopied(f0: Entries, fs: Entries, S: Path, T: Path, kind: CopyKind, now: Time, order: seq<Name>, ok: bool) {
    && IsDir(fs, T)
    && Extends(f0, fs, T, now, kind.Whole?)
    && SameBeneath(f0, fs, S)
    && (forall i :: 0 <= i < |order| ==> order[i] in Children(f0, S, false))
    && (forall q :: q in fs && (q !in f0 || fs[q] != f0[q]) && Under(q, T) && q != T ==>
          |q| == |T| + 1 && q[|T|] in order && fs[q].FileNode?)
    && (ok ==> forall i :: 0 <= i < |order| ==>
          Combine(T, order[i]) in fs && fs[Combine(T, order[i])] == Copied(kind, f0[Combine(S, order[i])], now))
  }

  lemma FilesInit(f0: Entries, S: Path, T: Path, kind: CopyKind, now: Time)
    requires IsDir(f0, T)
    ensures FilesCopied(f0, f0, S, T, kind, now, [], true)
  {
    ExtendsRefl(f0, T, now, kind.Whole?);
  }

  /** A change made for the child `n` of `T` spares the source tree and the trees at the other children. */
  lemma ChildSpares(before: Entries, after: Entries, S: Path, T: Path, n: Name, now: Time, w: bool)
    requires Disjoint(S, T) && Extends(before, after, Combine(T, n), now, w)
    ensures Extends(before, after, T, now, w) && SameBeneath(before, after, S)
    ensures forall m :: m != n ==> SameBeneath(before, after, Combine(T, m))
  {
    ExtendsWiden(before, after, T, n, now, w);
    DisjointBeneath(Combine(T, n), T, S);
    ExtendsSparesDisjoint(before, after, Combine(T, n), S, now, w);
    forall m | m != n ensures SameBeneath(before, after, Combine(T, m)) {
      SiblingsDisjoint(T, m, n);
      ExtendsSparesDisjoint(before, after, Combine(T, n), Combine(T, m), now, w);
    }
  }

  /** One file copy of the loop keeps its state. */
  lemma FilesStep(f0: Entries, before: Entries, after: Entries, S: Path, T: Path, kind: CopyKind, now: Time,
                  order: seq<Name>, n: Name, ok: bool, copied: bool)
    requires Disjoint(S, T) && FilesCopied(f0, before, S, T, kind, now, order, ok)
    requires n in Children(f0, S, false) && n !in order
    requires FileCopyStep(before, after, kind, Combine(S, n), Combine(T, n), now, copied)
    ensures FilesCopied(f0, after, S, T, kind, now, order + [n], ok && copied)
  {
    ChildSpares(before, after, S, T, n, now, kind.Whole?);
    ExtendsTrans(f0, before, after, T, now, kind.Whole?);
    FilesAdded(f0, before, after, S, T, kind, now, order, n, copied);
    if ok && copied {
      FilesKept(f0, before, after, S, T, kind, now, order, n);
    }
  }

  /** After one more file copy, what was added beneath `T` is still one file per name done. */
  lemma FilesAdded(f0: Entries, before: Entries, after: Entries, S: Path, T: Path, kind: CopyKind, now: Time,
                   order: seq<Name>, n: Name, copied: bool)
    requires forall q :: q in before && (q !in f0 || before[q] != f0[q]) && Under(q, T) && q != T ==>
               |q| == |T| + 1 && q[|T|] in order && before[q].FileNode?
    requires FileCopyStep(before, after, kind, Combine(S, n), Combine(T, n), now, copied)
    requires forall m :: m != n ==> SameBeneath(before, after, Combine(T, m))
    ensures forall q :: q in after && (q !in f0 || after[q] != f0[q]) && Under(q, T) && q != T ==>
              |q| == |T| + 1 && q[|T|] in order + [n] && after[q].FileNode?
  {
    forall q | q in after && (q !in f0 || after[q] != f0[q]) && Under(q, T) && q != T
      ensures |q| == |T| + 1 && q[|T|] in order + [n] && after[q].FileNode?
    {
      OneBelow(q, T);
      if q in before && q[|T|] != n {
        assert SameBeneath(before, after, Combine(T, q[|T|]));
      }
    }
  }

  /** The copies made so far survive one more file copy. */
  lemma FilesKept(f0: Entries, before: Entries, after: Entries, S: Path, T: Path, kind: CopyKind, now: Time,
                  order: seq<Name>, n: Name)
    requires n !in order && IsFile(f0, Combine(S, n))
    requires forall i :: 0 <= i < |order| ==>
               IsFile(f0, Combine(S, order[i])) && Combine(T, order[i]) in before && before[Combine(T, order[i])] == Copied(kind, f0[Combine(S, order[i])], now)
    requires forall m :: m != n ==> SameBeneath(before, after, Combine(T, m))
    requires Combine(T, n) in after && after[Combine(T, n)] == Copied(kind, f0[Combine(S, n)], now)
    ensures forall i :: 0 <= i < |order| + 1 ==>
              IsFile(f0, Combine(S, (order + [n])[i])) && Combine(T, (order + [n])[i]) in after &&
              after[Combine(T, (order + [n])[i])] == Copied(kind, f0[Combine(S, (order + [n])[i])], now)
  {
    forall i | 0 <= i < |order| + 1
      ensures IsFile(f0, Combine(S, (order + [n])[i])) && Combine(T, (order + [n])[i]) in after &&
              after[Combine(T, (order + [n])[i])] == Copied(kind, f0[Combine(S, (order + [n])[i])], now)
    {
      if i < |order| {
        assert SameBeneath(before, after, Combine(T, order[i]));
      }
    }
  }

  /**
   * What the file loop of the tree copy leaves: `T` is a folder, only the
   * way to `T` and the tree at `T` changed, the source tree is as before,
   * everything added beneath `T` is a file of the same name in `S`, and
   * without a failure every file directly in `S` has its copy in `T`.
   */
  ghost predicate FilesDone(f0: Entries, fs: Entries, S: Path, T: Path, kind: CopyKind, now: Time, ok: bool) {
    && IsDir(fs, T)
    && Extends(f0, fs, T, now, kind.Whole?)
    && SameBeneath(f0, fs, S)
    && FromSource(f0, fs, S, T)
    && (ok ==> forall n :: n in Children(f0, S, false) ==>
          Combine(T, n) in fs && fs[Combine(T, n)] == Copied(kind, f0[Combine(S, n)], now))
  }

  /**
   * What the file loop registers: one entry per file directly in `S`, none
   * twice, and, in a running transaction without a failure, all of them.
   */
  ghost predicate FilesLogged(added: seq<Option<UndoAction>>, f0: Entries, S: Path, T: Path, now: Time, complete: bool) {
    && Registers(added, f0, S, T, now)
    && Distinct(added)
    && (forall i :: 0 <= i < |added| ==> !Deep(added[i], T))
    && (complete ==> forall n :: n in Children(f0, S, false) ==> Some(Entry(Combine(T, n), now)) in added)
  }

  /** Everything the file loop added beneath `T` is a file of the same name in `S`. */
  lemma FilesFromSource(f0: Entries, fs: Entries, S: Path, T: Path, now: Time, order: seq<Name>)
    requires forall i :: 0 <= i < |order| ==> order[i] in Children(f0, S, false)
    requires forall q :: q in fs && (q !in f0 || fs[q] != f0[q]) && Under(q, T) && q != T ==>
               |q| == |T| + 1 && q[|T|] in order && fs[q].FileNode?
    ensures FromSource(f0, fs, S, T)
  {
    forall q | q in fs && (q !in f0 || fs[q] != f0[q]) && Under(q, T) && q != T
      ensures Rebase(q, T, S) in f0 && (fs[q].DirNode? <==> f0[Rebase(q, T, S)].DirNode?)
    {
      OneBelow(q, T);
      var k :| 0 <= k < |order| && order[k] == q[|T|];
    }
  }

  /** Once every name is done, every file directly in `S` has its copy. */
  lemma FilesAll(f0: Entries, fs: Entries, S: Path, T: Path, kind: CopyKind, now: Time, order: seq<Name>, all: set<Name>)
    requires forall m :: m in all ==> m in order
    requires forall i :: 0 <= i < |order| ==>
               && IsFile(f0, Combine(S, order[i])) && Combine(T, order[i]) in fs
               && fs[Combine(T, order[i])] == Copied(kind, f0[Combine(S, order[i])], now)
    ensures forall n :: n in all ==>
              IsFile(f0, Combine(S, n)) && Combine(T, n) in fs && fs[Combine(T, n)] == Copied(kind, f0[Combine(S, n)], now)
  {
    forall n | n in all
      ensures IsFile(f0, Combine(S, n)) && Combine(T, n) in fs && fs[Combine(T, n)] == Copied(kind, f0[Combine(S, n)], now)
    {
      var k :| 0 <= k < |order| && order[k] == n;
    }
  }

  /** When the file loop ends, its state gives what it promises. */
  lemma FilesFinish(f0: Entries, fs: Entries, S: Path, T: Path, kind: CopyKind, now: Time,
                    order: seq<Name>, ok: bool, names: set<Name>, running: bool)
    requires FilesCopied(f0, fs, S, T, kind, now, order, ok)
    requires Pending(Children(f0, S, false), names, order) && (ok ==> names == {})
    ensures FilesDone(f0, fs, S, T, kind, now, ok)
    ensures FilesLogged(if running then DirectEntries(T, order, now) else [], f0, S, T, now, ok && running)
  {
    FilesFromSource(f0, fs, S, T, now, order);
    if ok {
      FilesAll(f0, fs, S, T, kind, now, order, Children(f0, S, false));
    }
    DirectEntriesRegisters(order, f0, S, T, now);
    DirectEntriesDistinct(order, T, now);
    DirectEntriesCover(order, T, now);
  }

  /**
   * What a tree copy of `S` to `T` did to the disk: it changed or added
   * entries only on the way to `T` and beneath it, left the source tree as it
   * was, added beneath `T` only entries that stand for entries of the source
   * tree, and when it succeeded `S` was a folder and `T` mirrors it.
   */
  ghost predicate TreeCopied(f0: Entries, fs: Entries, S: Path, T: Path, kind: CopyKind, now: Time, ok: bool) {
    && Extends(f0, fs, T, now, kind.Whole?)
    && SameBeneath(f0, fs, S)
    && FromSource(f0, fs, S, T)
    && (ok ==> IsDir(f0, S) && Mirrors(f0, fs, S, T, kind, now))
  }

  /**
   * What a tree copy registers: one entry per file of the source tree, none
   * twice, those for the files directly in `S` first, and, when the copy
   * succeeded in a running transaction, an entry for every file.
   */
  ghost predicate TreeLogged(added: seq<Option<UndoAction>>, f0: Entries, S: Path, T: Path, now: Time, complete: bool) {
    && Registers(added, f0, S, T, now)
    && Distinct(added)
    && DirectFirst(added, T)
    && (complete ==> Covers(added, f0, S, T, now))
  }

  /**
   * The state the folder loop of the tree copy keeps: `T` is a folder, the
   * source tree is as before, the trees at the children of `T` not in `done`
   * are untouched, everything added beneath `T` stands for the source, and
   * while nothing failed, every folder in `done` has its mirror.
   */
  ghost predicate DirsCopied(f0: Entries, fs: Entries, S: Path, T: Path, kind: CopyKind, now: Time, done: set<Name>, ok: bool) {
    && IsDir(fs, T)
    && Extends(f0, fs, T, now, kind.Whole?)
    && SameBeneath(f0, fs, S)
    && (forall m :: m !in done ==> SameBeneath(f0, fs, Combine(T, m)))
    && FromSource(f0, fs, S, T)
    && (ok ==> forall m :: m in done ==> Mirrors(f0, fs, Combine(S, m), Combine(T, m), kind, now))
  }

  /**
   * What the folder loop registers: entries for files deeper than `T`'s
   * children, beneath the folders in `done`, none twice, and, while nothing
   * failed in a running transaction, all of the files beneath those folders.
   */
  ghost predicate DirsLogged(added: seq<Option<UndoAction>>, f0: Entries, S: Path, T: Path, now: Time, done: set<Name>, complete: bool) {
    && Registers(added, f0, S, T, now)
    && Distinct(added)
    && (forall i :: 0 <= i < |added| ==> Deep(added[i], T) && added[i].value.path[|T|] in done)
    && (complete ==> forall q {:trigger Rebase(q, S, T)} :: q in f0 && Under(q, S) && |q| > |S| + 1 && f0[q].FileNode? && q[|S|] in done ==>
          Some(Entry(Rebase(q, S, T), now)) in added)
  }

  lemma DirsInit(f0: Entries, S: Path, T: Path, kind: CopyKind, now: Time, complete: bool)
    requires IsDir(f0, T)
    ensures DirsCopied(f0, f0, S, T, kind, now, {}, true)
    ensures DirsLogged([], f0, S, T, now, {}, complete)
  {
    ExtendsRefl(f0, T, now, kind.Whole?);
  }

  /** A failed `CreateSubdirectory` changes nothing and ends the loop. */
  lemma DirsSkip(f0: Entries, fs: Entries, S: Path, T: Path, kind: CopyKind, now: Time, done: set<Name>, n: Name,
                 added: seq<Option<UndoAction>>, ok: bool, complete: bool, ok': bool, complete': bool)
    requires DirsCopied(f0, fs, S, T, kind, now, done, ok) && DirsLogged(added, f0, S, T, now, done, complete)
    requires !ok' && !complete'
    ensures DirsCopied(f0, fs, S, T, kind, now, done + {n}, ok')
    ensures DirsLogged(added + [], f0, S, T, now, done + {n}, complete')
  {
    assert added + [] == added;
  }

  /** Creating the child folder `n` of `T` and copying into it changes only the tree at `n` beneath `T`. */
  lemma ChildFrame(before: Entries, mid: Entries, after: Entries, S: Path, T: Path, n: Name, now: Time, w: bool)
    requires Disjoint(S, T) && IsDir(before, T)
    requires CreateDirectory(before, Combine(T, n), now) == Step(mid, Pass)
    requires Extends(mid, after, Combine(T, n), now, w)
    ensures IsDir(after, T) && Extends(before, after, T, now, w)
    ensures SameBeneath(before, after, S)
    ensures forall m :: m != n ==> SameBeneath(before, after, Combine(T, m))
  {
    var Tn := Combine(T, n);
    if w {
      ExtendsRewriting(before, mid, Tn, now);
    }
    ExtendsWiden(before, mid, T, n, now, w);
    ExtendsWiden(mid, after, T, n, now, w);
    ExtendsTrans(before, mid, after, T, now, w);
    DisjointBeneath(Tn, T, S);
    ExtendsSparesDisjoint(before, mid, Tn, S, now, w);
    ExtendsSparesDisjoint(mid, after, Tn, S, now, w);
    SameBeneathTrans(before, mid, after, S);
    forall m | m != n ensures SameBeneath(before, after, Combine(T, m)) {
      SiblingsDisjoint(T, m, n);
      ExtendsSparesDisjoint(before, mid, Tn, Combine(T, m), now, w);
      ExtendsSparesDisjoint(mid, after, Tn, Combine(T, m), now, w);
      SameBeneathTrans(before, mid, after, Combine(T, m));
    }
  }

  /** What creating the child folder `n` and copying into it adds beneath `T` comes from the source. */
  lemma ChildFromSource(before: Entries, mid: Entries, after: Entries, S: Path, T: Path, n: Name, now: Time, w: bool)
    requires Disjoint(S, T) && IsDir(before, Combine(S, n))
    requires CreateDirectory(before, Combine(T, n), now) == Step(mid, Pass)
    requires Extends(mid, after, Combine(T, n), now, w) && SameBeneath(before, mid, S)
    requires FromSource(mid, after, Combine(S, n), Combine(T, n))
    ensures FromSource(before, after, S, T)
  {
    var Tn, Sn := Combine(T, n), Combine(S, n);
    assert IsDir(mid, Tn) by {
      assert Tn[..|Tn|] == Tn;
    }
    assert FromSource(before, mid, S, T) by {
      forall q | q in mid && (q !in before || mid[q] != before[q]) && Under(q, T) && q != T
        ensures Rebase(q, T, S) in before && (mid[q].DirNode? <==> before[Rebase(q, T, S)].DirNode?)
      {
        OneBelow(q, T);
        assert Under(Sn, S);
      }
    }
    FromSourceChild(mid, after, S, T, n, now, w);
    if w {
      ExtendsRewriting(before, mid, Tn, now);
    }
    ExtendsWiden(before, mid, T, n, now, w);
    ExtendsWiden(mid, after, T, n, now, w);
    FromSourceTrans(before, mid, after, S, T, now, w);
  }

  /** Creating the child folder `n` of `T` and copying the child tree keeps the loop's state. */
  lemma DirsStep(f0: Entries, before: Entries, mid: Entries, after: Entries, S: Path, T: Path, kind: CopyKind, now: Time,
                 done: set<Name>, n: Name, ok: bool, copied: bool)
    requires Disjoint(S, T) && DirsCopied(f0, before, S, T, kind, now, done, ok)
    requires n in Children(f0, S, true) && n !in done
    requires CreateDirectory(before, Combine(T, n), now) == Step(mid, Pass)
    requires TreeCopied(mid, after, Combine(S, n), Combine(T, n), kind, now, copied)
    ensures DirsCopied(f0, after, S, T, kind, now, done + {n}, ok && copied)
  {
    var Tn, Sn, w := Combine(T, n), Combine(S, n), kind.Whole?;
    ChildFrame(before, mid, after, S, T, n, now, w);
    DisjointBeneath(Tn, T, S);
    if w {
      ExtendsRewriting(before, mid, Tn, now);
    }
    ExtendsSparesDisjoint(before, mid, Tn, S, now, w);
    assert IsDir(before, Sn) by {
      assert Under(Sn, S);
    }
    ChildFromSource(before, mid, after, S, T, n, now, w);
    ExtendsTrans(f0, before, after, T, now, w);
    SameBeneathTrans(f0, before, after, S);
    FromSourceTrans(f0, before, after, S, T, now, w);
    forall m | m !in done + {n} ensures SameBeneath(f0, after, Combine(T, m)) {
      SameBeneathTrans(f0, before, after, Combine(T, m));
    }
    if ok && copied {
      DirsMirrorStep(f0, before, mid, after, S, T, kind, now, done, n);
    }
  }

  /** The mirrors of the folders done stay, and the child `n` gains its own. */
  lemma DirsMirrorStep(f0: Entries, before: Entries, mid: Entries, after: Entries, S: Path, T: Path, kind: CopyKind, now: Time,
                       done: set<Name>, n: Name)
    requires SameBeneath(f0, before, S) && SameBeneath(before, mid, S)
    requires forall m :: m != n ==> SameBeneath(before, after, Combine(T, m))
    requires forall m :: m in done ==> Mirrors(f0, before, Combine(S, m), Combine(T, m), kind, now)
    requires Mirrors(mid, after, Combine(S, n), Combine(T, n), kind, now)
    ensures forall m :: m in done + {n} ==> Mirrors(f0, after, Combine(S, m), Combine(T, m), kind, now)
  {
    forall m | m in done + {n} ensures Mirrors(f0, after, Combine(S, m), Combine(T, m), kind, now) {
      if m == n {
        SameBeneathTrans(f0, before, mid, S);
        SameBeneathNarrow(f0, mid, S, Combine(S, n));
        MirrorsFrame(mid, f0, after, after, Combine(S, n), Combine(T, n), kind, now);
      } else {
        MirrorsFrame(f0, f0, before, after, Combine(S, m), Combine(T, m), kind, now);
      }
    }
  }

  /** Entries beneath different children of `T` never coincide. */
  lemma DirsLogDistinct(added: seq<Option<UndoAction>>, sub: seq<Option<UndoAction>>, T: Path, done: set<Name>, n: Name)
    requires Distinct(added) && Distinct(sub) && n !in done
    requires forall i :: 0 <= i < |added| ==> Deep(added[i], T) && added[i].value.path[|T|] in done
    requires forall i :: 0 <= i < |sub| ==> Deep(sub[i], T) && sub[i].value.path[|T|] == n
    ensures Distinct(added + sub)
    ensures forall i :: 0 <= i < |added + sub| ==> Deep((added + sub)[i], T) && (added + sub)[i].value.path[|T|] in done + {n}
  {
    DistinctAppend(added, sub);
  }

  /** The entries for the files beneath the child `n` join those for the folders in `done`. */
  lemma DirsLogCovers(added: seq<Option<UndoAction>>, sub: seq<Option<UndoAction>>, f0: Entries, mid: Entries,
                      S: Path, T: Path, now: Time, done: set<Name>, n: Name)
    requires SameBeneath(f0, mid, S)
    requires forall q {:trigger Rebase(q, S, T)} :: q in f0 && Under(q, S) && |q| > |S| + 1 && f0[q].FileNode? && q[|S|] in done ==>
               Some(Entry(Rebase(q, S, T), now)) in added
    requires Covers(sub, mid, Combine(S, n), Combine(T, n), now)
    ensures forall q {:trigger Rebase(q, S, T)} :: q in f0 && Under(q, S) && |q| > |S| + 1 && f0[q].FileNode? && q[|S|] in done + {n} ==>
              Some(Entry(Rebase(q, S, T), now)) in added + sub
  {
    CoversLift(sub, f0, mid, S, T, n, now);
    forall q | q in f0 && Under(q, S) && |q| > |S| + 1 && f0[q].FileNode? && q[|S|] in done + {n}
      ensures Some(Entry(Rebase(q, S, T), now)) in added + sub
    {
      if q[|S|] == n {
        assert q[..|S| + 1] == Combine(S, n);
      }
    }
  }

  /** The entries a child tree copy registers join the loop's log. */
  lemma DirsLogStep(added: seq<Option<UndoAction>>, sub: seq<Option<UndoAction>>, f0: Entries, mid: Entries,
                    S: Path, T: Path, now: Time, done: set<Name>, n: Name, complete: bool, copied: bool)
    requires DirsLogged(added, f0, S, T, now, done, complete) && n !in done
    requires SameBeneath(f0, mid, S)
    requires TreeLogged(sub, mid, Combine(S, n), Combine(T, n), now, copied)
    ensures DirsLogged(added + sub, f0, S, T, now, done + {n}, complete && copied)
  {
    RegistersLift(sub, f0, mid, S, T, n, now);
    RegistersAppend(added, sub, f0, S, T, now);
    DirsLogDistinct(added, sub, T, done, n);
    if complete && copied {
      DirsLogCovers(added, sub, f0, mid, S, T, now, done, n);
    }
  }

  lemma RegistersAppend(a: seq<Option<UndoAction>>, b: seq<Option<UndoAction>>, src: Entries, S: Path, T: Path, now: Time)
    requires Registers(a, src, S, T, now) && Registers(b, src, S, T, now)
    ensures Registers(a + b, src, S, T, now)
  {
  }

  /** When the folder loop ends, its state holds for all the folders of `S`. */
  lemma DirsFinish(f0: Entries, fs: Entries, S: Path, T: Path, kind: CopyKind, now: Time, done: set<Name>, all: set<Name>,
                   added: seq<Option<UndoAction>>, ok: bool, complete: bool)
    requires done <= all && (ok ==> done == all) && (complete ==> ok)
    requires DirsCopied(f0, fs, S, T, kind, now, done, ok) && DirsLogged(added, f0, S, T, now, done, complete)
    ensures DirsCopied(f0, fs, S, T, kind, now, all, ok) && DirsLogged(added, f0, S, T, now, all, complete)
  {
  }

  /** A tree copy that failed before copying anything. */
  lemma TreeUntouched(f0: Entries, fs: Entries, S: Path, T: Path, kind: CopyKind, now: Time)
    requires Disjoint(S, T)
    requires fs == f0 || CreateDirectory(f0, T, now) == Step(fs, Pass)
    ensures TreeCopied(f0, fs, S, T, kind, now, false) && TreeLogged([], f0, S, T, now, false)
  {
    if fs == f0 {
      ExtendsRefl(f0, T, now, kind.Whole?);
    } else {
      if kind.Whole? {
        ExtendsRewriting(f0, fs, T, now);
      }
      ExtendsSparesDisjoint(f0, fs, T, S, now, kind.Whole?);
    }
  }

  /** The synchronous copy stopped after a failed file copy. */
  lemma TreeFilesOnly(f0: Entries, f1: Entries, f2: Entries, S: Path, T: Path, kind: CopyKind, now: Time,
                      added: seq<Option<UndoAction>>, ok: bool, complete: bool)
    requires Disjoint(S, T) && CreateDirectory(f0, T, now) == Step(f1, Pass)
    requires FilesDone(f1, f2, S, T, kind, now, ok) && FilesLogged(added, f1, S, T, now, complete)
    ensures TreeCopied(f0, f2, S, T, kind, now, false) && TreeLogged(added, f0, S, T, now, false)
  {
    var w := kind.Whole?;
    if w {
      ExtendsRewriting(f0, f1, T, now);
    }
    ExtendsTrans(f0, f1, f2, T, now, w);
    ExtendsSparesDisjoint(f0, f1, T, S, now, w);
    SameBeneathTrans(f0, f1, f2, S);
    FromSourceTrans(f0, f1, f2, S, T, now, w);
    RegistersFrame(added, f1, f0, S, T, now);
  }

  /** On disk, the target folder, the file loop and the folder loop together stay within the tree copy's bounds. */
  lemma TreeFrameAssemble(f0: Entries, f1: Entries, f2: Entries, f3: Entries, S: Path, T: Path, kind: CopyKind, now: Time)
    requires Disjoint(S, T) && CreateDirectory(f0, T, now) == Step(f1, Pass)
    requires Extends(f1, f2, T, now, kind.Whole?) && SameBeneath(f1, f2, S) && FromSource(f1, f2, S, T)
    requires Extends(f2, f3, T, now, kind.Whole?) && SameBeneath(f2, f3, S) && FromSource(f2, f3, S, T)
    ensures Extends(f0, f3, T, now, kind.Whole?) && SameBeneath(f0, f3, S) && FromSource(f0, f3, S, T)
  {
    var w := kind.Whole?;
    if w {
      ExtendsRewriting(f0, f1, T, now);
    }
    ExtendsTrans(f0, f1, f2, T, now, w);
    ExtendsTrans(f0, f2, f3, T, now, w);
    ExtendsSparesDisjoint(f0, f1, T, S, now, w);
    SameBeneathTrans(f0, f1, f2, S);
    SameBeneathTrans(f0, f2, f3, S);
    FromSourceTrans(f0, f1, f2, S, T, now, w);
    FromSourceTrans(f0, f2, f3, S, T, now, w);
  }

  /** The entries of the file loop, then those of the folder loop, make the tree copy's log. */
  lemma TreeLogAssemble(fileAdded: seq<Option<UndoAction>>, subAdded: seq<Option<UndoAction>>,
                        f0: Entries, f1: Entries, f2: Entries, S: Path, T: Path, now: Time)
    requires SameBeneath(f0, f1, S) && SameBeneath(f0, f2, S)
    requires Registers(fileAdded, f1, S, T, now) && Distinct(fileAdded)
    requires forall i :: 0 <= i < |fileAdded| ==> !Deep(fileAdded[i], T)
    requires Registers(subAdded, f2, S, T, now) && Distinct(subAdded)
    requires forall i :: 0 <= i < |subAdded| ==> Deep(subAdded[i], T)
    ensures Registers(fileAdded + subAdded, f0, S, T, now)
    ensures Distinct(fileAdded + subAdded) && DirectFirst(fileAdded + subAdded, T)
  {
    RegistersFrame(fileAdded, f1, f0, S, T, now);
    RegistersFrame(subAdded, f2, f0, S, T, now);
    RegistersAppend(fileAdded, subAdded, f0, S, T, now);
    DistinctAppend(fileAdded, subAdded);
  }

  /** One entry of the source tree has its copy once both loops succeeded. */
  lemma TreeMirrorsAt(q: Path, f0: Entries, f2: Entries, f3: Entries, S: Path, T: Path, kind: CopyKind, now: Time)
    requires WellFormed(f0) && IsDir(f0, S) && q in f0 && Under(q, S)
    requires SameBeneath(f0, f2, S) && IsDir(f3, T)
    requires forall n :: n in Children(f0, S, false) ==>
               Combine(T, n) in f2 && f2[Combine(T, n)] == Copied(kind, f0[Combine(S, n)], now)
    requires forall m :: m !in Children(f0, S, true) ==> SameBeneath(f2, f3, Combine(T, m))
    requires forall m :: m in Children(f0, S, true) ==> Mirrors(f2, f3, Combine(S, m), Combine(T, m), kind, now)
    ensures && Rebase(q, S, T) in f3
            && (f0[q].DirNode? ==> f3[Rebase(q, S, T)].DirNode?)
            && (f0[q].FileNode? ==> f3[Rebase(q, S, T)] == Copied(kind, f0[q], now))
  {
    if q == S {
      assert Rebase(q, S, T) == T;
    } else {
      var m := q[|S|];
      assert q[..|S| + 1] == Combine(S, m);
      if |q| == |S| + 1 {
        OneBelow(q, S);
        assert Rebase(q, S, T) == Combine(T, m);
        if f0[q].FileNode? {
          assert m !in Children(f0, S, true);
          assert Under(Combine(T, m), Combine(T, m));
        } else {
          assert Under(q, Combine(S, m));
          RebaseChild(q, S, T, m);
        }
      } else {
        AncestorIsDir(f0, q, |S| + 1);
        RebaseChild(q, S, T, m);
      }
    }
  }

  /** Without a failure in either loop, the target mirrors the source. */
  lemma TreeMirrors(f0: Entries, f1: Entries, f2: Entries, f3: Entries, S: Path, T: Path, kind: CopyKind, now: Time)
    requires WellFormed(f0) && IsDir(f0, S) && SameBeneath(f0, f1, S) && SameBeneath(f0, f2, S) && IsDir(f3, T)
    requires forall n :: n in Children(f1, S, false) ==>
               Combine(T, n) in f2 && f2[Combine(T, n)] == Copied(kind, f1[Combine(S, n)], now)
    requires forall m :: m !in Children(f2, S, true) ==> SameBeneath(f2, f3, Combine(T, m))
    requires forall m :: m in Children(f2, S, true) ==> Mirrors(f2, f3, Combine(S, m), Combine(T, m), kind, now)
    ensures Mirrors(f0, f3, S, T, kind, now)
  {
    ChildrenFrame(f0, f1, S, false);
    ChildrenFrame(f0, f2, S, true);
    forall n | n in Children(f0, S, false)
      ensures Combine(T, n) in f2 && f2[Combine(T, n)] == Copied(kind, f0[Combine(S, n)], now)
    {
      assert Under(Combine(S, n), S);
    }
    forall q | q in f0 && Under(q, S)
      ensures && Rebase(q, S, T) in f3
              && (f0[q].DirNode? ==> f3[Rebase(q, S, T)].DirNode?)
              && (f0[q].FileNode? ==> f3[Rebase(q, S, T)] == Copied(kind, f0[q], now))
    {
      TreeMirrorsAt(q, f0, f2, f3, S, T, kind, now);
    }
  }

  /** Without a failure in a running transaction, every file of the source tree has its entry. */
  lemma TreeCovers(fileAdded: seq<Option<UndoAction>>, subAdded: seq<Option<UndoAction>>,
                   f0: Entries, f1: Entries, f2: Entries, S: Path, T: Path, now: Time)
    requires WellFormed(f0) && SameBeneath(f0, f1, S) && SameBeneath(f0, f2, S)
    requires forall n :: n in Children(f1, S, false) ==> Some(Entry(Combine(T, n), now)) in fileAdded
    requires forall q {:trigger Rebase(q, S, T)} :: q in f2 && Under(q, S) && |q| > |S| + 1 && f2[q].FileNode? &&
               q[|S|] in Children(f2, S, true)
               ==> Some(Entry(Rebase(q, S, T), now)) in subAdded
    ensures Covers(fileAdded + subAdded, f0, S, T, now)
  {
    ChildrenFrame(f0, f1, S, false);
    ChildrenFrame(f0, f2, S, true);
    forall q | q in f0 && Under(q, S) && |q| > |S| && f0[q].FileNode?
      ensures Some(Entry(Rebase(q, S, T), now)) in fileAdded + subAdded
    {
      var m := q[|S|];
      if |q| == |S| + 1 {
        OneBelow(q, S);
        assert Rebase(q, S, T) == Combine(T, m);
      } else {
        assert q[..|S| + 1] == Combine(S, m);
        AncestorIsDir(f0, q, |S| + 1);
        assert Some(Entry(Rebase(q, S, T), now)) in subAdded;
      }
    }
  }

  /** The file loop followed by the folder loop copies the tree. */
  lemma TreeAssemble(f0: Entries, f1: Entries, f2: Entries, f3: Entries, S: Path, T: Path, kind: CopyKind, now: Time,
                     fileAdded: seq<Option<UndoAction>>, subAdded: seq<Option<UndoAction>>,
                     okFiles: bool, okDirs: bool, running: bool, ok: bool)
    requires WellFormed(f0) && Disjoint(S, T) && CreateDirectory(f0, T, now) == Step(f1, Pass) && IsDir(f1, S)
    requires FilesDone(f1, f2, S, T, kind, now, okFiles) && FilesLogged(fileAdded, f1, S, T, now, okFiles && running)
    requires DirsCopied(f2, f3, S, T, kind, now, Children(f2, S, true), okDirs)
    requires DirsLogged(subAdded, f2, S, T, now, Children(f2, S, true), okDirs && running)
    requires ok ==> okFiles && okDirs
    ensures TreeCopied(f0, f3, S, T, kind, now, ok)
    ensures TreeLogged(fileAdded + subAdded, f0, S, T, now, ok && running)
  {
    TreeFrameAssemble(f0, f1, f2, f3, S, T, kind, now);
    ExtendsSparesDisjoint(f0, f1, T, S, now, false);
    SameBeneathTrans(f0, f1, f2, S);
    TreeLogAssemble(fileAdded, subAdded, f0, f1, f2, S, T, now);
    if ok {
      TreeMirrors(f0, f1, f2, f3, S, T, kind, now);
    }
    if ok && running {
      TreeCovers(fileAdded, subAdded, f0, f1, f2, S, T, now);
    }
  }

  /**
   * A tree copy leaves every entry already beneath the target that has no
   * counterpart beneath the source exactly as it was, whatever the file copy
   * and whether or not the copy failed: only `target/<name of a source entry>`
   * is ever written.
   */
  lemma TreeCopyKeepsUnmatched(f0: Entries, f1: Entries, S: Path, T: Path, kind: CopyKind, now: Time, ok: bool, q: Path)
    requires TreeCopied(f0, f1, S, T, kind, now, ok)
    requires q in f0 && Under(q, T) && q != T && Rebase(q, T, S) !in f0
    ensures q in f1 && f1[q] == f0[q]
  {
  }

  /** Rebasing from `T` to `S` and back returns to the same path. */
  lemma RebaseBack(q: Path, S: Path, T: Path)
    requires Under(q, T)
    ensures Rebase(Rebase(q, T, S), S, T) == q
  {
    var p := Rebase(q, T, S);
    assert p[|S|..] == q[|T|..];
    assert q == T + q[|T|..];
  }

  /**
   * A tree copy that succeeded into a target that did not exist leaves
   * beneath `T` exactly the copy of the tree at `S`: an entry for each entry
   * of the source tree and no other, a folder for each folder, and for each
   * file what the file copy of the overload writes.
   */
  lemma FreshTargetMirrorsExactly(f0: Entries, f1: Entries, S: Path, T: Path, kind: CopyKind, now: Time)
    requires WellFormed(f0) && T !in f0 && TreeCopied(f0, f1, S, T, kind, now, true)
    ensures forall q {:trigger Rebase(q, T, S)} :: Under(q, T) ==>
              && (q in f1 <==> Rebase(q, T, S) in f0)
              && (q in f1 ==> (f1[q].DirNode? <==> f0[Rebase(q, T, S)].DirNode?))
              && (q in f1 && f1[q].FileNode? ==> f1[q] == Copied(kind, f0[Rebase(q, T, S)], now))
  {
    forall q | Under(q, T)
      ensures && (q in f1 <==> Rebase(q, T, S) in f0)
              && (q in f1 ==> (f1[q].DirNode? <==> f0[Rebase(q, T, S)].DirNode?))
              && (q in f1 && f1[q].FileNode? ==> f1[q] == Copied(kind, f0[Rebase(q, T, S)], now))
    {
      NothingBeneathMissingFolder(f0, T, q);
      var p := Rebase(q, T, S);
      RebaseBack(q, S, T);
      if q == T {
        assert p == S;
      }
    }
  }

  /**
   * Rolling back right after a tree copy into a fresh target removes the
   * whole target when `S` holds a file directly: the undo action of that
   * file names `T`, which the copy created within the tolerance.
   */
  lemma RollbackRemovesFreshTarget(f0: Entries, f1: Entries, S: Path, T: Path, kind: CopyKind, now: Time,
                                   added: seq<Option<UndoAction>>, log: seq<Option<UndoAction>>, n: Name)
    requires WellFormed(f0) && WellFormed(f1) && T !in f0 && IsFile(f0, Combine(S, n))
    requires TreeCopied(f0, f1, S, T, kind, now, true) && TreeLogged(added, f0, S, T, now, true)
    requires forall x :: x in added ==> x in log
    ensures forall q :: q in Replay(f1, RollbackOrder(log)) ==> !Under(q, T)
  {
    var a := Entry(Combine(T, n), now);
    assert Rebase(Combine(S, n), S, T) == Combine(T, n);
    assert Some(a) in added;
    assert T in f1 by {
      assert Rebase(S, S, T) == T;
    }
    RollbackRemovesFolder(f1, log, a);
  }

  lemma RegistersFirst(added: seq<Option<UndoAction>>, f0: Entries, S: Path, T: Path, now: Time)
    ensures Registers(added, f0, S, T, now) && added != [] ==> FromFile(added[0], f0, S, T, now)
  {
  }

  /**
   * A tree without files registers nothing: the undo actions of a tree copy
   * come only from its file copies, and creating folders registers none.
   */
  lemma FilelessTreeRegistersNothing(added: seq<Option<UndoAction>>, f0: Entries, S: Path, T: Path, now: Time)
    requires forall q :: q in f0 && Under(q, S) ==> f0[q].DirNode?
    requires Registers(added, f0, S, T, now)
    ensures added == []
  {
    if added != [] {
      RegistersFirst(added, f0, S, T, now);
      assert false;
    }
  }

  class AsyncDirectory {
    const file: AsyncFile

    constructor (file: AsyncFile)
      ensures this.file == file
    {
      this.file := file;
    }

    /** `Copy(sourcePath, targetPath)`: the synchronous tree copy, `File.Copy` for each file. */
    method Copy(S: Path, T: Path, disk: Disk, now: Time) returns (r: Outcome, ghost added: seq<Option<UndoAction>>)
      requires disk.Valid() && Disjoint(S, T)
      modifies disk, file.transaction
      ensures disk.Valid()
      ensures TreeCopied(old(disk.entries), disk.entries, S, T, Plain, now, r.Pass?)
      ensures file.transaction.running == old(file.transaction.running)
      ensures file.transaction.actions == old(file.transaction.actions) + added
      ensures TreeLogged(added, old(disk.entries), S, T, now, r.Pass? && file.transaction.running)
    {
      r, added := CopyTree(S, T, Plain, false, disk, now);
    }

    /** `CopyAsync(sourcePath, targetPath)`: the asynchronous tree copy, whole-file `CopyAsync` for each file. */
    method CopyAsync(S: Path, T: Path, disk: Disk, now: Time) returns (r: Outcome, ghost added: seq<Option<UndoAction>>)
      requires disk.Valid() && Disjoint(S, T)
      modifies disk, file.transaction
      ensures disk.Valid()
      ensures TreeCopied(old(disk.entries), disk.entries, S, T, Whole, now, r.Pass?)
      ensures file.transaction.running == old(file.transaction.running)
      ensures file.transaction.actions == old(file.transaction.actions) + added
      ensures TreeLogged(added, old(disk.entries), S, T, now, r.Pass? && file.transaction.running)
    {
      r, added := CopyTree(S, T, Whole, true, disk, now);
    }

    /** `Copy(sourcePath, targetPath, bufferLength)`: the synchronous tree copy, buffered for each file. */
    method CopyBuffered(S: Path, T: Path, bufferLength: int, disk: Disk, now: Time)
      returns (r: Outcome, ghost added: seq<Option<UndoAction>>)
      requires disk.Valid() && Disjoint(S, T)
      modifies disk, file.transaction
      ensures disk.Valid()
      ensures TreeCopied(old(disk.entries), disk.entries, S, T, Buffered(bufferLength), now, r.Pass?)
      ensures file.transaction.running == old(file.transaction.running)
      ensures file.transaction.actions == old(file.transaction.actions) + added
      ensures TreeLogged(added, old(disk.entries), S, T, now, r.Pass? && file.transaction.running)
    {
      r, added := CopyTree(S, T, Buffered(bufferLength), false, disk, now);
    }

    /** `CopyAsync(sourcePath, targetPath, bufferLength)`: the asynchronous tree copy, buffered for each file. */
    method CopyBufferedAsync(S: Path, T: Path, bufferLength: int, disk: Disk, now: Time)
      returns (r: Outcome, ghost added: seq<Option<UndoAction>>)
      requires disk.Valid() && Disjoint(S, T)
      modifies disk, file.transaction
      ensures disk.Valid()
      ensures TreeCopied(old(disk.entries), disk.entries, S, T, Buffered(bufferLength), now, r.Pass?)
      ensures file.transaction.running == old(file.transaction.running)
      ensures file.transaction.actions == old(file.transaction.actions) + added
      ensures TreeLogged(added, old(disk.entries), S, T, now, r.Pass? && file.transaction.running)
    {
      r, added := CopyTree(S, T, Buffered(bufferLength), true, disk, now);
    }

    /** The file copy of the overload in use, from `src` to `dst`. */
    method CopyFile(kind: CopyKind, src: Path, dst: Path, disk: Disk, now: Time) returns (r: Outcome)
      requires disk.Valid()
      modifies disk, file.transaction
      ensures disk.Valid()
      ensures FileCopyStep(old(disk.entries), disk.entries, kind, src, dst, now, r.Pass?)
      ensures file.transaction.running == old(file.transaction.running)
      ensures file.transaction.actions ==
                old(file.transaction.actions) + Pushed(old(file.transaction.running), old(disk.entries), dst, now)
    {
      match kind
      case Plain =>
        r := file.Copy(src, dst, disk, now);
      case Whole =>
        r := file.CopyAsync(src, dst, disk, now);
      case Buffered(n) =>
        r := file.CopyBuffered(src, dst, n, disk, now);
    }

    /** One round of the file loop: copies the file `n` of `S` to `T`. */
    method CopyEntry(ghost f0: Entries, S: Path, T: Path, kind: CopyKind, n: Name, ghost order: seq<Name>, ghost prev: Outcome,
                     disk: Disk, now: Time) returns (r: Outcome)
      requires disk.Valid() && Disjoint(S, T) && FilesCopied(f0, disk.entries, S, T, kind, now, order, prev.Pass?)
      requires n in Children(f0, S, false) && n !in order
      modifies disk, file.transaction
      ensures disk.Valid() && FilesCopied(f0, disk.entries, S, T, kind, now, order + [n], First(prev, r).Pass?)
      ensures file.transaction.running == old(file.transaction.running)
      ensures file.transaction.actions == old(file.transaction.actions) +
                (if file.transaction.running then [Some(Entry(Combine(T, n), now))] else [])
    {
      ghost var before := disk.entries;
      FolderNotBlocked(before, T);
      r := CopyFile(kind, Combine(S, n), Combine(T, n), disk, now);
      FilesStep(f0, before, disk.entries, S, T, kind, now, order, n, prev.Pass?, r.Pass?);
    }

    /**
     * The first loop of the tree copy: every file directly in `S` is copied to
     * the same name in `T`. The synchronous copy stops at the first failure;
     * with `settle` every copy runs and the first failure is reported.
     */
    method CopyFiles(S: Path, T: Path, kind: CopyKind, settle: bool, disk: Disk, now: Time) returns (r: Outcome)
      requires disk.Valid() && Disjoint(S, T) && IsDir(disk.entries, T)
      modifies disk, file.transaction
      ensures disk.Valid() && FilesDone(old(disk.entries), disk.entries, S, T, kind, now, r.Pass?)
      ensures file.transaction.running == old(file.transaction.running)
      ensures |file.transaction.actions| >= |old(file.transaction.actions)|
      ensures file.transaction.actions[..|old(file.transaction.actions)|] == old(file.transaction.actions)
      ensures !old(file.transaction.running) ==> file.transaction.actions == old(file.transaction.actions)
      ensures FilesLogged(file.transaction.actions[|old(file.transaction.actions)|..], old(disk.entries), S, T, now,
                          r.Pass? && file.transaction.running)
    {
      hide Children, Rebase, Subtree;
      ghost var f0 := disk.entries;
      ghost var log0 := file.transaction.actions;
      var names := Children(disk.entries, S, false);
      ghost var all := names;
      ghost var order: seq<Name> := [];
      r := Pass;
      FilesInit(f0, S, T, kind, now);
      while names != {} && (settle || r.Pass?)
        invariant disk.Valid()
        invariant FilesCopied(f0, disk.entries, S, T, kind, now, order, r.Pass?)
        invariant Pending(all, names, order)
        invariant file.transaction.running == old(file.transaction.running)
        invariant file.transaction.actions == log0 + (if file.transaction.running then DirectEntries(T, order, now) else [])
        decreases |names|
      {
        var n :| n in names;
        PendingStep(all, names, order, n);
        LogStep(log0, T, order, n, now, file.transaction.running);
        var result := CopyEntry(f0, S, T, kind, n, order, r, disk, now);
        r := First(r, result);
        names := names - {n};
        order := order + [n];
      }
      FilesFinish(f0, disk.entries, S, T, kind, now, order, r.Pass?, names, file.transaction.running);
      assert file.transaction.actions[|log0|..] == (if file.transaction.running then DirectEntries(T, order, now) else []);
    }
  
    /**
     * One round of the folder loop: `CreateSubdirectory` for the folder `n`
     * of `S`, then the tree copy of that folder. A failure to create the
     * folder is thrown and ends the loop; the child copy's failure is its result.
     */
    method CopyChild(ghost f0: Entries, S: Path, T: Path, kind: CopyKind, settle: bool, n: Name, ghost done: set<Name>,
                     prev: Outcome, ghost added: seq<Option<UndoAction>>, disk: Disk, now: Time)
      returns (r: Outcome, thrown: bool, ghost sub: seq<Option<UndoAction>>)
      requires disk.Valid() && Disjoint(S, T) && IsDir(f0, S)
      requires DirsCopied(f0, disk.entries, S, T, kind, now, done, prev.Pass?)
      requires DirsLogged(added, f0, S, T, now, done, prev.Pass? && file.transaction.running)
      requires n in Children(f0, S, true) && n !in done
      modifies disk, file.transaction
      decreases |Subtree(disk.entries, S)|, 1
      ensures disk.Valid()
      ensures thrown ==> r.Fail?
      ensures prev.Fail? && !thrown ==> r == prev
      ensures DirsCopied(f0, disk.entries, S, T, kind, now, done + {n}, r.Pass?)
      ensures file.transaction.running == old(file.transaction.running)
      ensures file.transaction.actions == old(file.transaction.actions) + sub
      ensures !file.transaction.running ==> sub == []
      ensures DirsLogged(added + sub, f0, S, T, now, done + {n}, r.Pass? && file.transaction.running)
    {
      hide Children, Rebase, Subtree;
      ghost var before := disk.entries;
      r := disk.CreateDirectory(Combine(T, n), now);
      if r.Fail? {
        DirsSkip(f0, before, S, T, kind, now, done, n, added, prev.Pass?, prev.Pass? && file.transaction.running,
                 r.Pass?, false);
        return r, true, [];
      }
      ghost var mid := disk.entries;
      assert SameBeneath(f0, before, S);
      assert S in before;
      SubtreeShrinks(before, S, n);
      DisjointBeneath(Combine(T, n), T, S);
      ExtendsSparesDisjoint(before, mid, Combine(T, n), S, now, false);
      SameBeneathNarrow(before, mid, S, Combine(S, n));
      SubtreeFrame(before, mid, Combine(S, n));
      DisjointBeneath(Combine(S, n), S, Combine(T, n));
      var child;
      child, sub := CopyTree(Combine(S, n), Combine(T, n), kind, settle, disk, now);
      r, thrown := First(prev, child), false;
      DirsStep(f0, before, mid, disk.entries, S, T, kind, now, done, n, prev.Pass?, child.Pass?);
      SameBeneathTrans(f0, before, mid, S);
      DirsLogStep(added, sub, f0, mid, S, T, now, done, n, prev.Pass? && file.transaction.running,
                  child.Pass? && file.transaction.running);
    }

    /**
     * The second loop of the tree copy: each folder directly in `S` gets its
     * copy in `T`. `thrown` reports a failed `CreateSubdirectory`, which ends
     * the call even where the other failures are only collected.
     */
    method CopySubdirectories(S: Path, T: Path, kind: CopyKind, settle: bool, disk: Disk, now: Time)
      returns (r: Outcome, thrown: bool, ghost added: seq<Option<UndoAction>>)
      requires disk.Valid() && Disjoint(S, T) && IsDir(disk.entries, S) && IsDir(disk.entries, T)
      modifies disk, file.transaction
      decreases |Subtree(disk.entries, S)|, 2
      ensures disk.Valid()
      ensures thrown ==> r.Fail?
      ensures DirsCopied(old(disk.entries), disk.entries, S, T, kind, now, Children(old(disk.entries), S, true), r.Pass?)
      ensures file.transaction.running == old(file.transaction.running)
      ensures file.transaction.actions == old(file.transaction.actions) + added
      ensures !file.transaction.running ==> added == []
      ensures DirsLogged(added, old(disk.entries), S, T, now, Children(old(disk.entries), S, true),
                         r.Pass? && file.transaction.running)
    {
      // Every definition stays hidden in this body: the loop is argued only
      // through the contracts of `DirsInit`, `DirsSubtree`, `DoneStep`,
      // `CopyChild`, `LogAssoc` and `DirsFinish`, which keeps the proof small.
      hide *;
      ghost var f0 := disk.entries;
      ghost var log0 := file.transaction.actions;
      var names := Children(disk.entries, S, true);
      ghost var all := names;
      ghost var done: set<Name> := {};
      added := [];
      r, thrown := Pass, false;
      DirsInit(f0, S, T, kind, now, file.transaction.running);
      while names != {} && (settle || r.Pass?) && !thrown
        invariant disk.Valid()
        invariant names + done == all && names !! done
        invariant DirsCopied(f0, disk.entries, S, T, kind, now, done, r.Pass?)
        invariant file.transaction.running == old(file.transaction.running)
        invariant file.transaction.actions == log0 + added
        invariant !file.transaction.running ==> added == []
        invariant DirsLogged(added, f0, S, T, now, done, r.Pass? && file.transaction.running)
        invariant thrown ==> r.Fail?
        decreases |names|
      {
        var n :| n in names;
        DirsSubtree(f0, disk.entries, S, T, kind, now, done, r.Pass?);
        DoneStep(all, names, done, n);
        ghost var sub;
        r, thrown, sub := CopyChild(f0, S, T, kind, settle, n, done, r, added, disk, now);
        names := names - {n};
        done := done + {n};
        LogAssoc(log0, added, sub);
        added := added + sub;
      }
      DirsFinish(f0, disk.entries, S, T, kind, now, done, all, added, r.Pass?, r.Pass? && file.transaction.running);
    }

    /**
     * `CopyAll` of the overload `kind`, and with `settle` its asynchronous
     * twin `CopyAllAsync` run to completion: creates `T`, copies the files
     * directly in `S`, then the folders. The synchronous copy stops at the
     * first failure. The asynchronous copy runs every copy it has started
     * and reports the first failure among them, but a failure to create the
     * target, list the source or create a child folder ends it at once.
     */
    method CopyTree(S: Path, T: Path, kind: CopyKind, settle: bool, disk: Disk, now: Time)
      returns (r: Outcome, ghost added: seq<Option<UndoAction>>)
      requires disk.Valid() && Disjoint(S, T)
      modifies disk, file.transaction
      decreases |Subtree(disk.entries, S)|, 3
      ensures disk.Valid()
      ensures TreeCopied(old(disk.entries), disk.entries, S, T, kind, now, r.Pass?)
      ensures file.transaction.running == old(file.transaction.running)
      ensures file.transaction.actions == old(file.transaction.actions) + added
      ensures !file.transaction.running ==> added == []
      ensures TreeLogged(added, old(disk.entries), S, T, now, r.Pass? && file.transaction.running)
    {
      hide Children, Rebase, Subtree;
      ghost var f0 := disk.entries;
      ghost var log0 := file.transaction.actions;
      added := [];
      r := disk.CreateDirectory(T, now);
      if r.Fail? {
        TreeUntouched(f0, disk.entries, S, T, kind, now);
        return;
      }
      ghost var f1 := disk.entries;
      if !disk.DirectoryExists(S) {
        TreeUntouched(f0, disk.entries, S, T, kind, now);
        return Fail(DirectoryNotFound), [];
      }
      assert IsDir(f1, T) by {
        assert T[..|T|] == T;
      }
      var files := CopyFiles(S, T, kind, settle, disk, now);
      ghost var f2 := disk.entries;
      ghost var fileAdded := file.transaction.actions[|log0|..];
      LogSplit(file.transaction.actions, |log0|);
      if files.Fail? && !settle {
        TreeFilesOnly(f0, f1, f2, S, T, kind, now, fileAdded, false, false);
        return files, fileAdded;
      }
      ExtendsSparesDisjoint(f1, f2, T, S, now, kind.Whole?);
      SubtreeFrame(f0, f2, S);
      var sub, thrown, subAdded := CopySubdirectories(S, T, kind, settle, disk, now);
      r := if thrown then sub else First(files, sub);
      added := fileAdded + subAdded;
      LogAssoc(log0, fileAdded, subAdded);
      TreeAssemble(f0, f1, f2, disk.entries, S, T, kind, now, fileAdded, subAdded, files.Pass?, sub.Pass?,
                   file.transaction.running, r.Pass?);
    }
  }
}
