/**
 * The host filesystem that System.IO gives access to: a map from paths to
 * folders and files, with the creation time of each folder and the last-write
 * time of each file. Its primitives (`Directory.CreateDirectory`,
 * `File.WriteAllBytes`, `File.Copy`, `FileStream` with `FileMode.CreateNew`,
 * `Directory.Delete(path, true)`, `File.Delete`) are functions from one map to
 * the next; the class `Disk` holds the current map and applies them in place.
 */
module FileSystem {
  import opened Paths
  import opened Outcomes

  newtype byte = x: int | 0 <= x < 256

  /** A clock reading; the caller supplies the current one to each mutation. */
  type Time = int

  datatype Node = DirNode(created: Time) | FileNode(bytes: seq<byte>, lastWrite: Time)

  type Entries = map<Path, Node>

  /** Every entry but the root sits in a folder that exists. */
  ghost predicate WellFormed(fs: Entries) {
    forall p {:trigger Parent(p)} :: p in fs && p != [] ==> Parent(p) in fs && fs[Parent(p)].DirNode?
  }

  predicate IsDir(fs: Entries, p: Path) {
    p in fs && fs[p].DirNode?
  }

  predicate IsFile(fs: Entries, p: Path) {
    p in fs && fs[p].FileNode?
  }

  /** A file stands at `p` or at one of the folders above it. */
  predicate Blocked(fs: Entries, p: Path) {
    exists i :: 0 <= i <= |p| && IsFile(fs, p[..i])
  }

  /** `p` and every folder above it. */
  function Prefixes(p: Path): set<Path> {
    set i | 0 <= i <= |p| :: p[..i]
  }

  /** The new map of entries and whether the primitive threw. */
  datatype Step = Step(fs: Entries, outcome: Outcome)

  /**
   * `after` keeps every entry of `before`. Whatever is new or changed lies on
   * the way down to `at` or beneath it; a new folder is created at `now`; an
   * existing folder is never changed, and an existing file only when
   * `rewrites`, beneath `at`, into a file last written at `now`.
   */
  ghost predicate Extends(before: Entries, after: Entries, at: Path, now: Time, rewrites: bool) {
    && (forall q :: q in before ==> q in after)
    && (forall q :: q in after && (q !in before || after[q] != before[q]) ==>
          && (Under(at, q) || Under(q, at))
          && (after[q].DirNode? ==> after[q].created == now)
          && (q in before ==>
                rewrites && Under(q, at) && before[q].FileNode? && after[q].FileNode? && after[q].lastWrite == now))
  }

  lemma ExtendsRefl(fs: Entries, at: Path, now: Time, rewrites: bool)
    ensures Extends(fs, fs, at, now, rewrites)
  {
  }

  lemma {:induction false} ExtendsTrans(f0: Entries, f1: Entries, f2: Entries, at: Path, now: Time, rewrites: bool)
    requires Extends(f0, f1, at, now, rewrites) && Extends(f1, f2, at, now, rewrites)
    ensures Extends(f0, f2, at, now, rewrites)
  {
    forall q | q in f2 && (q !in f0 || f2[q] != f0[q])
      ensures && (Under(at, q) || Under(q, at))
              && (f2[q].DirNode? ==> f2[q].created == now)
              && (q in f0 ==>
                    rewrites && Under(q, at) && f0[q].FileNode? && f2[q].FileNode? && f2[q].lastWrite == now)
    {
      if q in f1 && f2[q] == f1[q] {
        assert q !in f0 || f1[q] != f0[q];
      }
    }
  }

  /** A change made on the way to, or beneath, `Combine(at, n)` is one made for `at`. */
  lemma ExtendsWiden(before: Entries, after: Entries, at: Path, n: Name, now: Time, rewrites: bool)
    requires Extends(before, after, Combine(at, n), now, rewrites)
    ensures Extends(before, after, at, now, rewrites)
  {
    forall q | q in after && (q !in before || after[q] != before[q])
      ensures Under(at, q) || Under(q, at)
      ensures q in before ==> Under(q, at)
    {
      if Under(q, Combine(at, n)) {
        UnderChild(q, at, n);
      } else {
        assert Under(Combine(at, n), q);
        assert |q| <= |at|;
        assert q == Combine(at, n)[..|q|] == at[..|q|];
      }
    }
  }

  /** Putting a node at `at` that a change for `at` may bring keeps the extension. */
  lemma ExtendsPut(before: Entries, after: Entries, at: Path, node: Node, now: Time, rewrites: bool)
    requires Extends(before, after, at, now, rewrites)
    requires node.DirNode? ==> node.created == now
    requires at in before && before[at] != node ==>
               rewrites && before[at].FileNode? && node.FileNode? && node.lastWrite == now
    ensures Extends(before, after[at := node], at, now, rewrites)
  {
  }

  lemma ExtendsRewriting(before: Entries, after: Entries, at: Path, now: Time)
    requires Extends(before, after, at, now, false)
    ensures Extends(before, after, at, now, true)
  {
  }

  /** Folders created only on the way down to `at` are also on the way down to any path beneath `at`. */
  lemma ExtendsNarrow(before: Entries, after: Entries, at: Path, p: Path, now: Time)
    requires Extends(before, after, at, now, false) && Under(p, at)
    requires forall q :: q in after && q !in before ==> Under(at, q)
    ensures Extends(before, after, p, now, false)
  {
    forall q | q in after && (q !in before || after[q] != before[q])
      ensures Under(p, q)
    {
      UnderTransitive(p, at, q);
    }
  }

  /** In a well-formed tree nothing lies beneath a folder that is missing. */
  lemma {:induction false} NothingBeneathMissingFolder(fs: Entries, dir: Path, q: Path)
    requires WellFormed(fs) && dir !in fs && Under(q, dir)
    ensures q !in fs
    decreases |q|
  {
    if q in fs {
      assert q != dir && q != [];
      assert Under(Parent(q), dir);
      NothingBeneathMissingFolder(fs, dir, Parent(q));
    }
  }

  /** In a well-formed tree every folder above an entry exists. */
  lemma {:induction false} AncestorIsDir(fs: Entries, q: Path, k: nat)
    requires WellFormed(fs) && q in fs && k < |q|
    ensures IsDir(fs, q[..k])
    decreases |q|
  {
    if k < |q| - 1 {
      assert Parent(q)[..k] == q[..k];
      AncestorIsDir(fs, Parent(q), k);
    } else {
      assert q[..k] == Parent(q);
    }
  }

  /** `Directory.CreateDirectory(p)`: creates `p` and every missing folder above it. */
  function CreateDirectory(fs: Entries, p: Path, now: Time): (r: Step)
    ensures r.outcome.Pass? <==> !Blocked(fs, p)
    ensures r.outcome.Fail? ==> r.outcome.error == IOFailure && r.fs == fs
    ensures r.outcome.Pass? ==> forall i :: 0 <= i <= |p| ==> IsDir(r.fs, p[..i])
    ensures Extends(fs, r.fs, p, now, false)
    ensures forall q :: q in r.fs && q !in fs ==> r.fs[q].DirNode? && Under(p, q)
    ensures WellFormed(fs) ==> WellFormed(r.fs)
  {
    if Blocked(fs, p) then Step(fs, Fail(IOFailure))
    else
      var created := map q | q in Prefixes(p) && q !in fs :: DirNode(now);
      var fs' := fs + created;
      assert forall i :: 0 <= i <= |p| ==> IsDir(fs', p[..i]) by {
        forall i | 0 <= i <= |p| ensures IsDir(fs', p[..i]) {
          assert p[..i] in Prefixes(p);
          assert !IsFile(fs, p[..i]);
        }
      }
      assert WellFormed(fs) ==> WellFormed(fs') by {
        if WellFormed(fs) {
          forall q | q in fs' && q != [] ensures Parent(q) in fs' && fs'[Parent(q)].DirNode? {
            if q !in fs {
              var i :| 0 <= i <= |p| && q == p[..i];
              assert Parent(q) == p[..i - 1];
            }
          }
        }
      }
      Step(fs', Pass)
  }

  /** Nothing blocks a folder that exists in a well-formed tree. */
  lemma FolderNotBlocked(fs: Entries, p: Path)
    requires WellFormed(fs) && IsDir(fs, p)
    ensures !Blocked(fs, p)
  {
    forall i | 0 <= i <= |p| ensures !IsFile(fs, p[..i]) {
      if i < |p| {
        AncestorIsDir(fs, p, i);
      } else {
        assert p[..i] == p;
      }
    }
  }

  /** Creating a folder that is already there, in a well-formed tree, changes nothing. */
  lemma CreateExistingDirectory(fs: Entries, p: Path, now: Time)
    requires WellFormed(fs) && IsDir(fs, p)
    ensures CreateDirectory(fs, p, now) == Step(fs, Pass)
  {
    forall i | 0 <= i <= |p| ensures IsDir(fs, p[..i]) {
      if i < |p| {
        AncestorIsDir(fs, p, i);
      } else {
        assert p[..i] == p;
      }
    }
  }

  /** `File.WriteAllBytes(p, data)`: creates or overwrites the file `p`. */
  function WriteAllBytes(fs: Entries, p: Path, data: seq<byte>, now: Time): (r: Step)
    ensures r.outcome.Pass? <==> p != [] && IsDir(fs, Parent(p)) && !IsDir(fs, p)
    ensures r.outcome.Pass? ==> r.fs == fs[p := FileNode(data, now)]
    ensures r.outcome.Fail? ==> r.fs == fs
    ensures WellFormed(fs) ==> WellFormed(r.fs)
  {
    if IsDir(fs, p) then Step(fs, Fail(UnauthorizedAccess))
    else if p == [] || !IsDir(fs, Parent(p)) then Step(fs, Fail(DirectoryNotFound))
    else Step(fs[p := FileNode(data, now)], Pass)
  }

  /** `File.ReadAllBytes(p)`, and the opening of a `FileStream` with `FileMode.Open`. */
  function ReadAllBytes(fs: Entries, p: Path): (r: Result<seq<byte>>)
    ensures r.Success? <==> IsFile(fs, p)
    ensures r.Success? ==> r.value == fs[p].bytes
  {
    if p !in fs then Failure(FileNotFound)
    else if fs[p].DirNode? then Failure(UnauthorizedAccess)
    else Success(fs[p].bytes)
  }

  /**
   * `File.Copy(src, dst)`: refuses a target that exists. The copy keeps the
   * source's last-write time, as the host's own file copy does.
   */
  function CopyFile(fs: Entries, src: Path, dst: Path): (r: Step)
    ensures r.outcome.Pass? <==> IsFile(fs, src) && dst !in fs && dst != [] && IsDir(fs, Parent(dst))
    ensures r.outcome.Pass? ==> r.fs == fs[dst := fs[src]]
    ensures r.outcome.Fail? ==> r.fs == fs
    ensures WellFormed(fs) ==> WellFormed(r.fs)
  {
    match ReadAllBytes(fs, src)
    case Failure(e) => Step(fs, Fail(e))
    case Success(data) =>
      if dst in fs then Step(fs, Fail(if fs[dst].DirNode? then UnauthorizedAccess else IOFailure))
      else WriteAllBytes(fs, dst, data, fs[src].lastWrite)
  }

  /** `new FileStream(p, FileMode.CreateNew)`: creates an empty file, refusing one that exists. */
  function CreateNew(fs: Entries, p: Path, now: Time): (r: Step)
    ensures r.outcome.Pass? <==> p !in fs && p != [] && IsDir(fs, Parent(p))
    ensures r.outcome.Pass? ==> r.fs == fs[p := FileNode([], now)]
    ensures r.outcome.Fail? ==> r.fs == fs
    ensures WellFormed(fs) ==> WellFormed(r.fs)
  {
    if p in fs then Step(fs, Fail(if fs[p].DirNode? then UnauthorizedAccess else IOFailure))
    else WriteAllBytes(fs, p, [], now)
  }

  /** `Directory.Delete(p, true)`: removes `p` and everything beneath it. */
  function DeleteTree(fs: Entries, p: Path): (r: Entries)
    ensures forall q :: q in r <==> q in fs && !Under(q, p)
    ensures forall q :: q in r ==> r[q] == fs[q]
    ensures WellFormed(fs) ==> WellFormed(r)
  {
    var r := map q | q in fs && !Under(q, p) :: fs[q];
    assert WellFormed(fs) ==> WellFormed(r) by {
      if WellFormed(fs) {
        forall q | q in r && q != [] ensures Parent(q) in r {
          if Under(Parent(q), p) {
            UnderTransitive(q, Parent(q), p);
          }
        }
      }
    }
    r
  }

  /** `File.Delete(p)`. */
  function DeleteFile(fs: Entries, p: Path): (r: Entries)
    ensures r == fs - {p}
    ensures WellFormed(fs) && IsFile(fs, p) ==> WellFormed(r)
  {
    fs - {p}
  }
}

/** The host filesystem as one mutable object. */
module Host {
  import opened Paths
  import opened Outcomes
  import opened FileSystem

  /**
   * The host filesystem. Every method is one System.IO call and leaves the
   * entries exactly as the corresponding function above says.
   */
  class Disk {
    var entries: Entries

    ghost predicate Valid()
      reads this
    {
      WellFormed(entries)
    }

    constructor (initial: Entries)
      requires WellFormed(initial)
      ensures Valid() && entries == initial
    {
      entries := initial;
    }

    /** `Directory.Exists(p)`. */
    function DirectoryExists(p: Path): bool
      reads this
    {
      IsDir(entries, p)
    }

    /** `File.Exists(p)`. */
    function FileExists(p: Path): bool
      reads this
    {
      IsFile(entries, p)
    }

    /** `Directory.GetCreationTime(p)`. */
    function CreationTime(p: Path): Time
      reads this
      requires DirectoryExists(p)
    {
      entries[p].created
    }

    /** `File.GetLastWriteTime(p)`. */
    function LastWriteTime(p: Path): Time
      reads this
      requires FileExists(p)
    {
      entries[p].lastWrite
    }

    method CreateDirectory(p: Path, now: Time) returns (r: Outcome)
      requires Valid()
      modifies this
      ensures Valid()
      ensures Step(entries, r) == FileSystem.CreateDirectory(old(entries), p, now)
    {
      var s := FileSystem.CreateDirectory(entries, p, now);
      entries, r := s.fs, s.outcome;
    }

    method WriteAllBytes(p: Path, data: seq<byte>, now: Time) returns (r: Outcome)
      requires Valid()
      modifies this
      ensures Valid()
      ensures Step(entries, r) == FileSystem.WriteAllBytes(old(entries), p, data, now)
    {
      var s := FileSystem.WriteAllBytes(entries, p, data, now);
      entries, r := s.fs, s.outcome;
    }

    method Copy(src: Path, dst: Path) returns (r: Outcome)
      requires Valid()
      modifies this
      ensures Valid()
      ensures Step(entries, r) == CopyFile(old(entries), src, dst)
    {
      var s := CopyFile(entries, src, dst);
      entries, r := s.fs, s.outcome;
    }

    method ReadAllBytes(p: Path) returns (r: Result<seq<byte>>)
      ensures r == FileSystem.ReadAllBytes(entries, p)
    {
      r := FileSystem.ReadAllBytes(entries, p);
    }

    method CreateNew(p: Path, now: Time) returns (r: Outcome)
      requires Valid()
      modifies this
      ensures Valid()
      ensures Step(entries, r) == FileSystem.CreateNew(old(entries), p, now)
    {
      var s := FileSystem.CreateNew(entries, p, now);
      entries, r := s.fs, s.outcome;
    }

    /** `FileStream.Write` on a stream opened for `p`: appends `chunk` to the file. */
    method Append(p: Path, chunk: seq<byte>, now: Time)
      requires Valid() && FileExists(p)
      modifies this
      ensures Valid()
      ensures entries == old(entries)[p := FileNode(old(entries)[p].bytes + chunk, now)]
    {
      entries := entries[p := FileNode(entries[p].bytes + chunk, now)];
    }

    method DeleteDirectory(p: Path)
      requires Valid()
      modifies this
      ensures Valid()
      ensures entries == DeleteTree(old(entries), p)
    {
      entries := DeleteTree(entries, p);
    }

    method DeleteFile(p: Path)
      requires Valid() && FileExists(p)
      modifies this
      ensures Valid()
      ensures entries == FileSystem.DeleteFile(old(entries), p)
    {
      entries := FileSystem.DeleteFile(entries, p);
    }
  }
}
