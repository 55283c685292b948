/**
 * The file organizer of Task1.py. `process_directory` walks a source tree and
 * hands every file to `copy_file`, which copies it to
 * `destination / <extension> / <file name>`, where the extension is the
 * file's suffix without its dot, in lower case; files without one are skipped.
 *
 * The file system is abstracted as a tree of entries, and the destination as
 * the set of extension folders it holds and the copies made into it. The
 * thread pools only decide the order in which the copies happen, so the model
 * walks the tree sequentially and collects the copies in a multiset.
 */
module Organizer {

  // ---------------------------------------------------------------------
  // The extension of a file name (Task1.py line 19)
  // ---------------------------------------------------------------------

  predicate IsUpper(c: char)
  {
    'A' <= c <= 'Z'
  }

  /** ASCII lower-casing of one character. */
  function LowerChar(c: char): char
  {
    if IsUpper(c) then (c as int + 32) as char else c
  }

  /** `str.lower()`, restricted to ASCII letters. */
  function Lower(s: string): (r: string)
    ensures |r| == |s|
    ensures forall i :: 0 <= i < |s| ==> !IsUpper(r[i])
    ensures forall i :: 0 <= i < |s| && IsUpper(s[i]) ==> r[i] as int == s[i] as int + 32
    ensures forall i :: 0 <= i < |s| && !IsUpper(s[i]) ==> r[i] == s[i]
  {
    if s == [] then [] else [LowerChar(s[0])] + Lower(s[1..])
  }

  /** `str.rfind(c)`: the index of the last c in s, or -1. */
  function LastIndexOf(s: string, c: char): (r: int)
    ensures -1 <= r < |s|
    ensures r >= 0 ==> s[r] == c
    ensures forall j :: r < j < |s| ==> s[j] != c
  {
    if s == [] then -1
    else if s[|s| - 1] == c then |s| - 1
    else LastIndexOf(s[..|s| - 1], c)
  }

  /** pathlib's `PurePath.suffix` of a file name: from its last dot on, unless
      that dot is the first or the last character. */
  function Suffix(name: string): (r: string)
    ensures r == [] || (|r| >= 2 && r[0] == '.' && '.' !in r[1..] && |r| < |name| && r == name[|name| - |r|..])
  {
    var i := LastIndexOf(name, '.');
    if 0 < i < |name| - 1 then name[i..] else ""
  }

  /** `str.lstrip('.')`. */
  function StripLeadingDots(s: string): (r: string)
    ensures |r| <= |s| && r == s[|s| - |r|..]
    ensures r == [] || r[0] != '.'
    ensures forall j :: 0 <= j < |s| - |r| ==> s[j] == '.'
  {
    if s != [] && s[0] == '.' then StripLeadingDots(s[1..]) else s
  }

  /** `file_path.suffix.lstrip('.').lower()`: the name of the folder a file is
      sorted into; it holds no dot and no upper-case letter. */
  function Extension(name: string): (ext: string)
    ensures '.' !in ext
    ensures forall i :: 0 <= i < |ext| ==> !IsUpper(ext[i])
    ensures |ext| < |name| || ext == []
  {
    Lower(StripLeadingDots(Suffix(name)))
  }

  /** A name that has a stem, a dot and a dot-free tail has the lower-cased
      tail as its extension, whatever the stem holds. */
  lemma ExtensionOfDottedName(stem: string, tail: string)
    requires stem != [] && tail != [] && '.' !in tail
    ensures Extension(stem + ['.'] + tail) == Lower(tail)
  {
    var name := stem + ['.'] + tail;
    var i := LastIndexOf(name, '.');
    assert name[|stem|] == '.';
    assert i == |stem| by {
      forall j | |stem| < j < |name|
        ensures name[j] != '.'
      {
        assert name[j] == tail[j - |stem| - 1];
      }
    }
    assert Suffix(name) == ['.'] + tail;
    assert name[i..] == ['.'] + tail;
    assert StripLeadingDots(['.'] + tail) == tail by {
      assert (['.'] + tail)[1..] == tail;
    }
  }

  /** The extension is empty exactly when no dot follows the first character,
      or the name ends with a dot. */
  lemma ExtensionEmpty(name: string)
    ensures Extension(name) == [] <==>
      (forall j :: 1 <= j < |name| ==> name[j] != '.') || (|name| > 0 && name[|name| - 1] == '.')
  {
    var i := LastIndexOf(name, '.');
    if 0 < i < |name| - 1 {
      assert Extension(name) != [] by {
        assert Suffix(name) == name[i..];
        assert Suffix(name)[1..] != [];
        assert StripLeadingDots(Suffix(name)) == Suffix(name)[1..];
      }
      assert name[i] == '.' && name[|name| - 1] != '.';
    } else if i <= 0 {
      assert forall j :: 1 <= j < |name| ==> name[j] != '.';
    } else {
      assert name[|name| - 1] == '.';
    }
  }

  // ---------------------------------------------------------------------
  // The source tree and the copy decisions (Task1.py lines 18-43)
  // ---------------------------------------------------------------------

  /** A path as its sequence of components, from the source root. */
  type Path = seq<string>

  /** `Path.name`: the last component, or "" for the empty path. */
  function FileName(p: Path): string
  {
    if p == [] then "" else p[|p| - 1]
  }

  /** An entry of a directory listing: a subdirectory with its own entries, or
      anything else, which `process_directory` treats as a file. */
  datatype Entry = File(name: string) | Dir(name: string, entries: seq<Entry>)

  /** `destination_directory / folder / name`. */
  datatype Target = Target(folder: string, name: string)

  /** One `shutil.copy` from a source file to a target. */
  datatype Copy = Copy(source: Path, target: Target)

  datatype Option<T> = None | Some(value: T)

  /** What `copy_file` does with the file `name` of directory `dir`: nothing
      when its extension is empty, otherwise a copy to `<ext>/<name>`, so the
      target depends on the file name only and not on where the file sits. */
  function CopyDecision(dir: Path, name: string): (r: Option<Copy>)
    ensures r.None? <==> Extension(name) == []
    ensures r.Some? ==> r.value.source == dir + [name] && FileName(r.value.source) == name
    ensures r.Some? ==> r.value.target.name == name && r.value.target.folder == Extension(name)
  {
    var ext := Extension(name);
    if ext == [] then None else Some(Copy(dir + [name], Target(ext, name)))
  }

  /** The copies `copy_file` completes for one file; `failing` holds the source
      files whose `shutil.copy` raises an I/O error. */
  function FileCopies(dir: Path, name: string, failing: set<Path>): (r: multiset<Copy>)
    ensures r == multiset{} <==> Extension(name) == [] || dir + [name] in failing
    ensures forall c :: c in r ==> r[c] == 1 && c.source == dir + [name] && IsCopyOf(c, failing)
  {
    match CopyDecision(dir, name)
    case None => multiset{}
    case Some(c) => if c.source in failing then multiset{} else multiset{c}
  }

  /** The copies completed by `process_directory` on a directory at `dir` with
      the given entries: files go to `copy_file`, subdirectories back into
      `process_directory` with the same destination. */
  function Routed(dir: Path, entries: seq<Entry>, failing: set<Path>): (r: multiset<Copy>)
    ensures forall c :: c in r ==> IsCopyOf(c, failing)
    decreases entries
  {
    if entries == [] then multiset{}
    else
      var first := match entries[0]
        case File(name) => FileCopies(dir, name, failing)
        case Dir(name, children) => Routed(dir + [name], children, failing);
      first + Routed(dir, entries[1..], failing)
  }

  /** The extension folders `copy_file` creates under the destination; the
      folder is made before the copy, so a failing copy still leaves it. */
  function Folders(entries: seq<Entry>): (r: set<string>)
    ensures forall x :: x in r ==> x != [] && '.' !in x
    decreases entries
  {
    if entries == [] then {}
    else
      var first := match entries[0]
        case File(name) => if Extension(name) == [] then {} else {Extension(name)}
        case Dir(_, children) => Folders(children);
      first + Folders(entries[1..])
  }

  /** Whether `process_directory` raises: `future.result()` re-raises the
      error of any failed task, at every level up to the root. */
  function Raises(dir: Path, entries: seq<Entry>, failing: set<Path>): (r: bool)
    ensures failing == {} ==> !r
    decreases entries
  {
    if entries == [] then false
    else
      var first := match entries[0]
        case File(name) => Extension(name) != [] && dir + [name] in failing
        case Dir(name, children) => Raises(dir + [name], children, failing);
      first || Raises(dir, entries[1..], failing)
  }

  /** Every file of the tree, as the walk meets it. */
  function FilePaths(dir: Path, entries: seq<Entry>): seq<Path>
    decreases entries
  {
    if entries == [] then []
    else
      var first := match entries[0]
        case File(name) => [dir + [name]]
        case Dir(name, children) => FilePaths(dir + [name], children);
      first + FilePaths(dir, entries[1..])
  }

  /** The names in a directory listing. */
  function Names(entries: seq<Entry>): set<string>
  {
    if entries == [] then {} else {entries[0].name} + Names(entries[1..])
  }

  /** c is the copy that `copy_file` completes for its source file. */
  predicate IsCopyOf(c: Copy, failing: set<Path>)
  {
    var name := FileName(c.source);
    c.source != [] && c.source !in failing && Extension(name) != [] && c.target == Target(Extension(name), name)
  }

  /** The non-empty extensions of the files at `paths`. */
  function ExtensionsOf(paths: seq<Path>): set<string>
  {
    if paths == [] then {}
    else
      var ext := Extension(FileName(paths[0]));
      (if ext == [] then {} else {ext}) + ExtensionsOf(paths[1..])
  }

  /** Some file among `paths` has an extension and a failing copy. */
  ghost predicate HasFailingCopy(paths: seq<Path>, failing: set<Path>)
  {
    exists p :: p in paths && p in failing && Extension(FileName(p)) != []
  }

  /** The copies, folders, raised error and files of a one-entry listing. */
  lemma SingleEntry(dir: Path, e: Entry, failing: set<Path>)
    ensures Routed(dir, [e], failing) == if e.Dir? then Routed(dir + [e.name], e.entries, failing) else FileCopies(dir, e.name, failing)
    ensures Folders([e]) == if e.Dir? then Folders(e.entries) else if Extension(e.name) == [] then {} else {Extension(e.name)}
    ensures Raises(dir, [e], failing) == if e.Dir? then Raises(dir + [e.name], e.entries, failing) else Extension(e.name) != [] && dir + [e.name] in failing
  {
    assert [e][1..] == [];
    assert Routed(dir, [], failing) == multiset{};
    assert Folders([]) == {};
  }

  /** The files and names of a one-entry listing. */
  lemma SinglePaths(dir: Path, e: Entry)
    ensures FilePaths(dir, [e]) == if e.Dir? then FilePaths(dir + [e.name], e.entries) else [dir + [e.name]]
    ensures Names([e]) == {e.name}
  {
    assert [e][1..] == [];
  }

  /** Handling the entries of a listing in two parts gives the union of the parts. */
  lemma RoutedAppend(dir: Path, a: seq<Entry>, b: seq<Entry>, failing: set<Path>)
    ensures Routed(dir, a + b, failing) == Routed(dir, a, failing) + Routed(dir, b, failing)
    ensures Folders(a + b) == Folders(a) + Folders(b)
    ensures Raises(dir, a + b, failing) == (Raises(dir, a, failing) || Raises(dir, b, failing))
  {
    CopiesAppend(dir, a, b, failing);
    FoldersAppend(a, b);
    RaisesAppend(dir, a, b, failing);
  }

  lemma {:induction false} CopiesAppend(dir: Path, a: seq<Entry>, b: seq<Entry>, failing: set<Path>)
    ensures Routed(dir, a + b, failing) == Routed(dir, a, failing) + Routed(dir, b, failing)
    decreases a
  {
    if a == [] {
      assert a + b == b;
    } else {
      assert (a + b)[0] == a[0];
      assert (a + b)[1..] == a[1..] + b;
      CopiesAppend(dir, a[1..], b, failing);
    }
  }

  lemma {:induction false} FoldersAppend(a: seq<Entry>, b: seq<Entry>)
    ensures Folders(a + b) == Folders(a) + Folders(b)
    decreases a
  {
    if a == [] {
      assert a + b == b;
    } else {
      assert (a + b)[0] == a[0];
      assert (a + b)[1..] == a[1..] + b;
      FoldersAppend(a[1..], b);
    }
  }

  lemma {:induction false} RaisesAppend(dir: Path, a: seq<Entry>, b: seq<Entry>, failing: set<Path>)
    ensures Raises(dir, a + b, failing) == (Raises(dir, a, failing) || Raises(dir, b, failing))
    decreases a
  {
    if a == [] {
      assert a + b == b;
    } else {
      assert (a + b)[0] == a[0];
      assert (a + b)[1..] == a[1..] + b;
      RaisesAppend(dir, a[1..], b, failing);
    }
  }

  lemma {:induction false} FilePathsAppend(dir: Path, a: seq<Entry>, b: seq<Entry>)
    ensures FilePaths(dir, a + b) == FilePaths(dir, a) + FilePaths(dir, b)
    ensures Names(a + b) == Names(a) + Names(b)
    decreases a
  {
    if a == [] {
      assert a + b == b;
    } else {
      assert (a + b)[0] == a[0];
      assert (a + b)[1..] == a[1..] + b;
      FilePathsAppend(dir, a[1..], b);
    }
  }

  /** A listing is its first entry followed by the rest. */
  lemma SplitFirst(dir: Path, entries: seq<Entry>, failing: set<Path>)
    requires entries != []
    ensures Routed(dir, entries, failing) == Routed(dir, [entries[0]], failing) + Routed(dir, entries[1..], failing)
    ensures Folders(entries) == Folders([entries[0]]) + Folders(entries[1..])
    ensures Raises(dir, entries, failing) == (Raises(dir, [entries[0]], failing) || Raises(dir, entries[1..], failing))
    ensures FilePaths(dir, entries) == FilePaths(dir, [entries[0]]) + FilePaths(dir, entries[1..])
    ensures Names(entries) == Names([entries[0]]) + Names(entries[1..])
  {
    assert entries == [entries[0]] + entries[1..];
    RoutedAppend(dir, [entries[0]], entries[1..], failing);
    FilePathsAppend(dir, [entries[0]], entries[1..]);
  }

  lemma FileCopiesCount(dir: Path, name: string, failing: set<Path>, c: Copy)
    ensures FileCopies(dir, name, failing)[c] ==
      if IsCopyOf(c, failing) then multiset([dir + [name]])[c.source] else 0
  {
    assert FileName(dir + [name]) == name;
    assert multiset([dir + [name]])[c.source] == if c.source == dir + [name] then 1 else 0;
  }

  /** Across the whole tree, the copies are exactly those of the files with a
      non-empty extension that do not fail, each as often as the walk meets
      the file, and each to `<ext>/<name>` whatever the file's depth. */
  lemma {:induction false} RoutedCount(dir: Path, entries: seq<Entry>, failing: set<Path>, c: Copy)
    ensures Routed(dir, entries, failing)[c] ==
      if IsCopyOf(c, failing) then multiset(FilePaths(dir, entries))[c.source] else 0
    decreases entries
  {
    if entries != [] {
      var e := entries[0];
      SplitFirst(dir, entries, failing);
      RoutedCount(dir, entries[1..], failing, c);
      EntryCount(dir, e, failing, c);
    }
  }

  lemma {:induction false} EntryCount(dir: Path, e: Entry, failing: set<Path>, c: Copy)
    ensures Routed(dir, [e], failing)[c] ==
      if IsCopyOf(c, failing) then multiset(FilePaths(dir, [e]))[c.source] else 0
    decreases e
  {
    SingleEntry(dir, e, failing);
    SinglePaths(dir, e);
    if e.Dir? {
      RoutedCount(dir + [e.name], e.entries, failing, c);
    } else {
      FileCopiesCount(dir, e.name, failing, c);
    }
  }

  /** x is in `ExtensionsOf(paths)` exactly when x is the non-empty extension
      of one of the files. */
  lemma {:induction false} ExtensionsOfMembers(paths: seq<Path>, x: string)
    ensures x in ExtensionsOf(paths) <==> exists p :: p in paths && x == Extension(FileName(p)) && x != []
    decreases |paths|
  {
    if paths != [] {
      var p0, rest := paths[0], paths[1..];
      var e0 := Extension(FileName(p0));
      assert ExtensionsOf(paths) == (if e0 == [] then {} else {e0}) + ExtensionsOf(rest);
      ExtensionsOfMembers(rest, x);
      if x in ExtensionsOf(paths) {
        if x in ExtensionsOf(rest) {
          var p :| p in rest && x == Extension(FileName(p)) && x != [];
          assert p in paths;
        } else {
          assert p0 in paths && x == e0 && x != [];
        }
      } else {
        forall p | p in paths && x == Extension(FileName(p))
          ensures x == []
        {
          assert p == p0 || p in rest;
        }
      }
    }
  }

  lemma {:induction false} ExtensionsOfAppend(a: seq<Path>, b: seq<Path>)
    ensures ExtensionsOf(a + b) == ExtensionsOf(a) + ExtensionsOf(b)
    decreases |a|
  {
    if a == [] {
      assert a + b == b;
    } else {
      assert (a + b)[0] == a[0];
      assert (a + b)[1..] == a[1..] + b;
      ExtensionsOfAppend(a[1..], b);
    }
  }

  lemma FileExtensions(dir: Path, name: string)
    ensures ExtensionsOf([dir + [name]]) == if Extension(name) == [] then {} else {Extension(name)}
  {
    assert FileName(dir + [name]) == name;
    assert [dir + [name]][1..] == [];
  }

  /** The extension folders are exactly the non-empty extensions of the
      tree's files. */
  lemma {:induction false} FoldersAreExtensions(dir: Path, entries: seq<Entry>)
    ensures Folders(entries) == ExtensionsOf(FilePaths(dir, entries))
    decreases entries
  {
    if entries != [] {
      var e := entries[0];
      SplitFirst(dir, entries, {});
      SingleEntry(dir, e, {});
      SinglePaths(dir, e);
      FoldersAreExtensions(dir, entries[1..]);
      ExtensionsOfAppend(FilePaths(dir, [e]), FilePaths(dir, entries[1..]));
      if e.Dir? {
        FoldersAreExtensions(dir + [e.name], e.entries);
      } else {
        FileExtensions(dir, e.name);
      }
    }
  }

  lemma HasFailingCopyAppend(a: seq<Path>, b: seq<Path>, failing: set<Path>)
    ensures HasFailingCopy(a + b, failing) == (HasFailingCopy(a, failing) || HasFailingCopy(b, failing))
  {
    if HasFailingCopy(a + b, failing) {
      var p :| p in a + b && p in failing && Extension(FileName(p)) != [];
      assert p in a || p in b;
    }
    if HasFailingCopy(a, failing) {
      var p :| p in a && p in failing && Extension(FileName(p)) != [];
      assert p in a + b;
    }
    if HasFailingCopy(b, failing) {
      var p :| p in b && p in failing && Extension(FileName(p)) != [];
      assert p in a + b;
    }
  }

  lemma FileHasFailingCopy(dir: Path, name: string, failing: set<Path>)
    ensures HasFailingCopy([dir + [name]], failing) == (Extension(name) != [] && dir + [name] in failing)
  {
    assert FileName(dir + [name]) == name;
    assert dir + [name] in [dir + [name]];
  }

  /** `process_directory` raises exactly when the copy of some file with an
      extension fails. */
  lemma {:induction false} RaisesOnAnyFailure(dir: Path, entries: seq<Entry>, failing: set<Path>)
    ensures Raises(dir, entries, failing) == HasFailingCopy(FilePaths(dir, entries), failing)
    decreases entries
  {
    if entries != [] {
      var e := entries[0];
      SplitFirst(dir, entries, failing);
      SingleEntry(dir, e, failing);
      SinglePaths(dir, e);
      RaisesOnAnyFailure(dir, entries[1..], failing);
      HasFailingCopyAppend(FilePaths(dir, [e]), FilePaths(dir, entries[1..]), failing);
      if e.Dir? {
        RaisesOnAnyFailure(dir + [e.name], e.entries, failing);
      } else {
        FileHasFailingCopy(dir, e.name, failing);
      }
    }
  }

  lemma MultisetCancel<T>(x: multiset<T>, m1: multiset<T>, m2: multiset<T>)
    requires x + m1 == x + m2
    ensures m1 == m2
  {
    forall y
      ensures m1[y] == m2[y]
    {
      assert (x + m1)[y] == (x + m2)[y];
    }
  }

  /** Taking entry k out of a listing leaves the rest of its multiset. */
  lemma RemoveAtMultiset(b: seq<Entry>, k: nat)
    requires k < |b|
    ensures multiset(b) == multiset{b[k]} + multiset(b[..k] + b[k + 1..])
  {
    assert b == b[..k] + [b[k]] + b[k + 1..];
  }

  /** Entry k of a listing can be handled first. */
  lemma RemoveAt(dir: Path, b: seq<Entry>, k: nat, failing: set<Path>)
    requires k < |b|
    ensures var rest := b[..k] + b[k + 1..];
      && Routed(dir, b, failing) == Routed(dir, [b[k]], failing) + Routed(dir, rest, failing)
      && Folders(b) == Folders([b[k]]) + Folders(rest)
      && Raises(dir, b, failing) == (Raises(dir, [b[k]], failing) || Raises(dir, rest, failing))
  {
    assert b == b[..k] + ([b[k]] + b[k + 1..]);
    RoutedAppend(dir, b[..k], [b[k]] + b[k + 1..], failing);
    RoutedAppend(dir, [b[k]], b[k + 1..], failing);
    RoutedAppend(dir, b[..k], b[k + 1..], failing);
  }

  /** The first entry of a listing occurs somewhere in any permutation of it,
      and what remains on both sides is again a permutation. */
  lemma MatchFirst(a: seq<Entry>, b: seq<Entry>) returns (k: nat)
    requires a != [] && multiset(a) == multiset(b)
    ensures k < |b| && b[k] == a[0]
    ensures multiset(a[1..]) == multiset(b[..k] + b[k + 1..])
  {
    assert a[0] in multiset(b);
    k :| 0 <= k < |b| && b[k] == a[0];
    assert a == [a[0]] + a[1..];
    RemoveAtMultiset(b, k);
    MultisetCancel(multiset{a[0]}, multiset(a[1..]), multiset(b[..k] + b[k + 1..]));
  }

  /** The order of a directory listing changes nothing: the copies, folders
      and raised error depend only on which entries there are. */
  lemma {:induction false} RoutedIgnoresOrder(dir: Path, a: seq<Entry>, b: seq<Entry>, failing: set<Path>)
    requires multiset(a) == multiset(b)
    ensures Routed(dir, a, failing) == Routed(dir, b, failing)
    ensures Folders(a) == Folders(b)
    ensures Raises(dir, a, failing) == Raises(dir, b, failing)
    decreases |a|
  {
    if a != [] {
      var k := MatchFirst(a, b);
      var rest := b[..k] + b[k + 1..];
      RoutedIgnoresOrder(dir, a[1..], rest, failing);
      SplitFirst(dir, a, failing);
      RemoveAt(dir, b, k, failing);
    }
  }

  /** Handling entry i after the first i entries of a listing. */
  lemma ListingStep(dir: Path, entries: seq<Entry>, i: nat, failing: set<Path>)
    requires i < |entries|
    ensures Routed(dir, entries[..i + 1], failing) == Routed(dir, entries[..i], failing) + Routed(dir, [entries[i]], failing)
    ensures Folders(entries[..i + 1]) == Folders(entries[..i]) + Folders([entries[i]])
    ensures Raises(dir, entries[..i + 1], failing) == (Raises(dir, entries[..i], failing) || Raises(dir, [entries[i]], failing))
  {
    var done, next := entries[..i], [entries[i]];
    assert entries[..i + 1] == done + next;
    RoutedAppend(dir, done, next, failing);
  }

  // ---------------------------------------------------------------------
  // Each file is copied once
  // ---------------------------------------------------------------------

  predicate Distinct<T(==)>(s: seq<T>)
  {
    forall i, j :: 0 <= i < j < |s| ==> s[i] != s[j]
  }

  /** A real directory: no two entries share a name, and every subdirectory
      is a real directory too. */
  predicate WellFormed(entries: seq<Entry>)
    decreases entries
  {
    entries == [] ||
      (entries[0].name !in Names(entries[1..]) &&
       (entries[0].Dir? ==> WellFormed(entries[0].entries)) &&
       WellFormed(entries[1..]))
  }

  lemma {:induction false} DistinctCount<T>(s: seq<T>, x: T)
    requires Distinct(s)
    ensures multiset(s)[x] == if x in s then 1 else 0
    decreases |s|
  {
    if s != [] {
      assert s == [s[0]] + s[1..];
      assert Distinct(s[1..]);
      DistinctCount(s[1..], x);
      assert s[0] !in s[1..];
    }
  }

  lemma DistinctConcat<T>(a: seq<T>, b: seq<T>)
    requires Distinct(a) && Distinct(b)
    requires forall x :: x in a ==> x !in b
    ensures Distinct(a + b)
  {
    forall i, j | 0 <= i < j < |a + b|
      ensures (a + b)[i] != (a + b)[j]
    {
      if i < |a| && j >= |a| {
        assert (a + b)[i] == a[i] && a[i] in a;
        assert (a + b)[j] == b[j - |a|] && b[j - |a|] in b;
      }
    }
  }

  lemma ChildPath(dir: Path, name: string, p: Path)
    requires |p| >= |dir| + 1 && p[..|dir| + 1] == dir + [name]
    ensures p[..|dir|] == dir && p[|dir|] == name
  {
    assert p[..|dir|] == p[..|dir| + 1][..|dir|];
    assert p[|dir|] == p[..|dir| + 1][|dir|];
  }

  /** The walk's file paths all lie below `dir`, one level under one of its entries. */
  lemma {:induction false} FilePathsBelow(dir: Path, entries: seq<Entry>)
    ensures forall p :: p in FilePaths(dir, entries) ==>
      |p| > |dir| && p[..|dir|] == dir && p[|dir|] in Names(entries)
    decreases entries
  {
    if entries != [] {
      SplitFirst(dir, entries, {});
      FilePathsBelow(dir, entries[1..]);
      EntryPathsBelow(dir, entries[0]);
    }
  }

  lemma {:induction false} EntryPathsBelow(dir: Path, e: Entry)
    ensures forall p :: p in FilePaths(dir, [e]) ==>
      |p| > |dir| && p[..|dir|] == dir && p[|dir|] == e.name
    decreases e
  {
    assert [e][1..] == [];
    if e.Dir? {
      FilePathsBelow(dir + [e.name], e.entries);
      forall p | p in FilePaths(dir + [e.name], e.entries)
        ensures |p| > |dir| && p[..|dir|] == dir && p[|dir|] == e.name
      {
        ChildPath(dir, e.name, p);
      }
    } else {
      ChildPath(dir, e.name, dir + [e.name]);
    }
  }

  lemma {:induction false} FilePathsDistinct(dir: Path, entries: seq<Entry>)
    requires WellFormed(entries)
    ensures Distinct(FilePaths(dir, entries))
    decreases entries
  {
    if entries != [] {
      var e := entries[0];
      SplitFirst(dir, entries, {});
      SinglePaths(dir, e);
      var first, rest := FilePaths(dir, [e]), FilePaths(dir, entries[1..]);
      FilePathsDistinct(dir, entries[1..]);
      FilePathsBelow(dir, entries[1..]);
      FilePathsBelow(dir, [e]);
      if e.Dir? {
        FilePathsDistinct(dir + [e.name], e.entries);
      }
      DistinctConcat(first, rest);
    }
  }

  /** In a real directory tree, every file with a non-empty extension whose
      copy does not fail is copied exactly once, and nothing else is copied. */
  lemma EachFileCopiedOnce(dir: Path, entries: seq<Entry>, failing: set<Path>)
    requires WellFormed(entries)
    ensures forall p :: p in FilePaths(dir, entries) && p !in failing && Extension(FileName(p)) != [] ==>
      Routed(dir, entries, failing)[Copy(p, Target(Extension(FileName(p)), FileName(p)))] == 1
    ensures forall c :: c in Routed(dir, entries, failing) ==>
      Routed(dir, entries, failing)[c] == 1 && c.source in FilePaths(dir, entries) && IsCopyOf(c, failing)
  {
    EveryFileCopied(dir, entries, failing);
    OnlyFilesCopied(dir, entries, failing);
  }

  lemma EveryFileCopied(dir: Path, entries: seq<Entry>, failing: set<Path>)
    requires WellFormed(entries)
    ensures forall p :: p in FilePaths(dir, entries) && p !in failing && Extension(FileName(p)) != [] ==>
      Routed(dir, entries, failing)[Copy(p, Target(Extension(FileName(p)), FileName(p)))] == 1
  {
    FilePathsDistinct(dir, entries);
    FilePathsBelow(dir, entries);
    forall p | p in FilePaths(dir, entries) && p !in failing && Extension(FileName(p)) != []
      ensures Routed(dir, entries, failing)[Copy(p, Target(Extension(FileName(p)), FileName(p)))] == 1
    {
      CopiedOnce(dir, entries, failing, Copy(p, Target(Extension(FileName(p)), FileName(p))));
    }
  }

  lemma OnlyFilesCopied(dir: Path, entries: seq<Entry>, failing: set<Path>)
    requires WellFormed(entries)
    ensures forall c :: c in Routed(dir, entries, failing) ==>
      Routed(dir, entries, failing)[c] == 1 && c.source in FilePaths(dir, entries) && IsCopyOf(c, failing)
  {
    FilePathsDistinct(dir, entries);
    forall c | c in Routed(dir, entries, failing)
      ensures Routed(dir, entries, failing)[c] == 1 && c.source in FilePaths(dir, entries)
    {
      CopiedOnce(dir, entries, failing, c);
    }
  }

  lemma CopiedOnce(dir: Path, entries: seq<Entry>, failing: set<Path>, c: Copy)
    requires Distinct(FilePaths(dir, entries))
    ensures Routed(dir, entries, failing)[c] ==
      if IsCopyOf(c, failing) && c.source in FilePaths(dir, entries) then 1 else 0
  {
    RoutedCount(dir, entries, failing, c);
    DistinctCount(FilePaths(dir, entries), c.source);
  }

  lemma UnionAssociates<T, U>(a: multiset<T>, b: multiset<T>, c: multiset<T>, x: set<U>, y: set<U>, z: set<U>)
    ensures (a + b) + c == a + (b + c)
    ensures (x + y) + z == x + (y + z)
  {
  }

  // ---------------------------------------------------------------------
  // The destination directory (Task1.py lines 18-43)
  // ---------------------------------------------------------------------

  /** The destination directory: the extension folders in it and the copies
      made into it so far. Which of two copies to the same target survives
      depends on thread scheduling and is not modelled. */
  class Destination {
    var folders: set<string>
    var copies: multiset<Copy>

    constructor ()
      ensures folders == {} && copies == multiset{}
    {
      folders := {};
      copies := multiset{};
    }

    /** `mkdir(parents=True, exist_ok=True)`: making a folder that is already
        there is not an error and changes nothing. */
    method MakeFolder(folder: string)
      modifies this
      ensures folders == old(folders) + {folder}
      ensures old(folder in folders) ==> folders == old(folders)
      ensures copies == old(copies)
    {
      folders := folders + {folder};
    }

    /** `copy_file(dir / name, destination)`. */
    method CopyFile(dir: Path, name: string, failing: set<Path>) returns (raised: bool)
      modifies this
      ensures copies == old(copies) + FileCopies(dir, name, failing)
      ensures folders == old(folders) + (if Extension(name) == [] then {} else {Extension(name)})
      ensures raised == (Extension(name) != [] && dir + [name] in failing)
    {
      raised := false;
      var ext := Extension(name);
      if ext != [] {
        MakeFolder(ext);
        if dir + [name] in failing {
          raised := true;
        } else {
          copies := copies + multiset{Copy(dir + [name], Target(ext, name))};
        }
      }
    }

    /** The dispatch of one directory entry: a subdirectory goes to a
        recursive `process_directory` with the same destination, anything
        else to `copy_file`. */
    method ProcessEntry(dir: Path, e: Entry, failing: set<Path>) returns (raised: bool)
      modifies this
      decreases e
      ensures copies == old(copies) + Routed(dir, [e], failing)
      ensures folders == old(folders) + Folders([e])
      ensures raised == Raises(dir, [e], failing)
    {
      SingleEntry(dir, e, failing);
      if e.Dir? {
        raised := ProcessDirectory(dir + [e.name], e.entries, failing);
      } else {
        raised := CopyFile(dir, e.name, failing);
      }
    }

    /** `process_directory(dir, destination)`: every entry is dispatched
        once, a subdirectory to a recursive call with the same destination and
        anything else to `copy_file`; the call returns once all of them have
        finished, and raises if any of them raised. */
    method ProcessDirectory(dir: Path, entries: seq<Entry>, failing: set<Path>) returns (raised: bool)
      modifies this
      decreases entries
      ensures copies == old(copies) + Routed(dir, entries, failing)
      ensures folders == old(folders) + Folders(entries)
      ensures raised == Raises(dir, entries, failing)
    {
      raised := false;
      for i := 0 to |entries|
        invariant copies == old(copies) + Routed(dir, entries[..i], failing)
        invariant folders == old(folders) + Folders(entries[..i])
        invariant raised == Raises(dir, entries[..i], failing)
      {
        ghost var copiesBefore, foldersBefore := copies, folders;
        var taskRaised := ProcessEntry(dir, entries[i], failing);
        ListingStep(dir, entries, i, failing);
        UnionAssociates(old(copies), Routed(dir, entries[..i], failing), Routed(dir, [entries[i]], failing),
                        old(folders), Folders(entries[..i]), Folders([entries[i]]));
        raised := raised || taskRaised;
      }
      assert entries[..|entries|] == entries;
    }
  }
}
