/** Choosing a file name that is not taken yet (`GlobalUtils.createNewFile` and `newName`): the
    preferred name, else "name copy", "name copy 2", "name copy 3", … with the extension kept
    at the end. A directory is modelled by the finite set of names already in it. */
module FileNames {
  import opened Wrappers
  import opened FileFormat
  import opened Text

  /** A name's stem and extension (`deletingPathExtension().lastPathComponent` and
      `pathExtension`): the text after the last dot is the extension when that dot is neither
      the first nor the last character; otherwise there is no extension. */
  function SplitExtension(name: string): (r: (string, string))
    ensures r.1 == "" ==> r.0 == name
    ensures r.1 != "" ==> |r.0| > 0 && r.0 + "." + r.1 == name && '.' !in r.1
  {
    match LastIndexOf(name, '.')
    case Some(i) =>
      if 0 < i < |name| - 1 then
        assert name == name[..i] + "." + name[i + 1..];
        (name[..i], name[i + 1..])
      else (name, "")
    case None => (name, "")
  }

  /** The decimal digit of `d`. */
  function Digit(d: nat): (r: char)
    requires d < 10
    ensures '0' <= r <= '9' && r as int - '0' as int == d
  {
    (d + '0' as int) as char
  }

  /** Swift's `"\(n)"` for a non-negative `Int`: decimal digits, most significant first. */
  function NatToString(n: nat): (r: string)
    ensures |r| > 0 && forall i :: 0 <= i < |r| ==> '0' <= r[i] <= '9'
  {
    if n < 10 then [Digit(n)] else NatToString(n / 10) + [Digit(n % 10)]
  }

  /** Reference reading of a string of decimal digits. */
  function ParseNat(s: string): nat
    requires forall i :: 0 <= i < |s| ==> '0' <= s[i] <= '9'
  {
    if |s| == 0 then 0 else 10 * ParseNat(s[..|s| - 1]) + (s[|s| - 1] as int - '0' as int)
  }

  /** Reading back the digits gives the number: the decimal text of a number names it uniquely. */
  lemma {:induction false} ParseNatToString(n: nat)
    ensures ParseNat(NatToString(n)) == n
  {
    if n >= 10 {
      ParseNatToString(n / 10);
      var s := NatToString(n);
      assert s[..|s| - 1] == NatToString(n / 10);
    }
  }

  /** `newName(for:withIndex:)`: the stem, " copy", then " <index>" for an index above 1, then
      the extension with its dot. */
  function NewName(name: string, index: nat): (r: string)
    ensures var stem := SplitExtension(name).0;
      |stem| + 5 <= |r| && r[..|stem| + 5] == stem + " copy"
    ensures SplitExtension(name).1 != "" ==> SplitExtension(r).1 == SplitExtension(name).1
  {
    var (stem, ext) := SplitExtension(name);
    var front := stem + " copy" + CopyMarker(index);
    if ext == "" then
      assert front[..|stem| + 5] == stem + " copy";
      front
    else
      var r := front + "." + ext;
      assert r[..|stem| + 5] == stem + " copy";
      LastIndexOfAppend(front + ".", ext, '.');
      assert r == (front + ".") + ext;
      r
  }

  /** The name tried at round `k` of `createNewFile`: the preferred name first, then copy
      index `k`. */
  function Candidate(name: string, k: nat): string {
    if k == 0 then name else NewName(name, k)
  }

  /** `s` is `a + m + b`: the middle is what is left between the prefix and the suffix. */
  lemma Middle(s: string, a: string, m: string, b: string)
    requires s == a + m + b
    ensures m == s[|a|..|s| - |b|]
  {
  }

  /** The index marker of copy `k`: nothing for the first copy, " k" from the second on. */
  function CopyMarker(k: nat): string {
    if k > 1 then " " + NatToString(k) else ""
  }

  /** A copy name is the stem, " copy", the marker, and the original extension with its dot. */
  lemma NewNameParts(name: string, k: nat)
    ensures var (stem, ext) := SplitExtension(name);
      var dotExt := if ext == "" then "" else "." + ext;
      name == stem + dotExt && NewName(name, k) == stem + " copy" + CopyMarker(k) + dotExt
  {
  }

  /** Different rounds try different names, so the search never revisits a name. */
  lemma CandidateInjective(name: string, j: nat, k: nat)
    requires j != k
    ensures Candidate(name, j) != Candidate(name, k)
  {
    var (stem, ext) := SplitExtension(name);
    var dotExt := if ext == "" then "" else "." + ext;
    NewNameParts(name, j);
    NewNameParts(name, k);
    if j > 0 && k > 0 {
      var s := NewName(name, j);
      if s == NewName(name, k) {
        Middle(s, stem + " copy", CopyMarker(j), dotExt);
        Middle(s, stem + " copy", CopyMarker(k), dotExt);
        if j > 1 && k > 1 {
          assert NatToString(j) == CopyMarker(j)[1..] == NatToString(k);
          ParseNatToString(j);
          ParseNatToString(k);
        }
      }
    } else {
      assert |Candidate(name, j)| != |Candidate(name, k)|;
    }
  }

  /** Reference definition of the search: the first round from `k` on whose name is free. */
  function FreeRound(existing: set<string>, name: string, k: nat): (r: nat)
    ensures r >= k && Candidate(name, r) !in existing
    ensures forall j :: k <= j < r ==> Candidate(name, j) in existing
    decreases |existing|
  {
    if Candidate(name, k) !in existing then k
    else
      var rest := existing - {Candidate(name, k)};
      var r := FreeRound(rest, name, k + 1);
      CandidateInjective(name, k, r);
      forall j | k + 1 <= j < r
        ensures Candidate(name, j) in existing
      {
        CandidateInjective(name, k, j);
      }
      r
  }

  /** A destination directory: its own last path component, the names in it, and the names
      beside it in its parent. */
  datatype Directory = Directory(name: string, entries: set<string>, siblings: set<string>)

  /** A path built from a destination directory: a name inside it, or (`inParent`) a name beside
      it. The empty name inside it is the directory itself. */
  datatype Path = Path(inParent: bool, name: string)

  /** `FileManager.fileExists(atPath:)`: the directory itself always exists. */
  predicate Exists(dir: Directory, path: Path) {
    if path.inParent then path.name in dir.siblings
    else path.name == "" || path.name in dir.entries
  }

  /** The path of copy `k` (`initialPath.deletingLastPathComponent()` joined with
      `newName(for: initialPath, withIndex: k)`): `dir.appendingPathComponent("")` is the
      directory itself, so for the empty name the copy is named after the directory and placed
      in its parent. */
  function CopyPath(dir: Directory, name: string, k: nat): Path {
    if name == "" then Path(true, NewName(dir.name, k)) else Path(false, NewName(name, k))
  }

  /** The path tried at round `k` of `createNewFile`: the preferred name first, then copy `k`. */
  function Attempt(dir: Directory, name: string, k: nat): Path {
    if k == 0 then Path(false, name) else CopyPath(dir, name, k)
  }

  /** The round at which the search stops: the first attempt that does not exist. */
  function FirstFree(dir: Directory, name: string): (r: nat)
    ensures !Exists(dir, Attempt(dir, name, r))
    ensures forall j :: 0 <= j < r ==> Exists(dir, Attempt(dir, name, j))
  {
    if name == "" then
      var r := FreeRound(dir.siblings, dir.name, 1);
      assert forall j :: 1 <= j < r ==> Attempt(dir, name, j).name == Candidate(dir.name, j);
      r
    else
      var r := FreeRound(dir.entries, name, 0);
      assert forall j :: 0 <= j < r ==> Attempt(dir, name, j).name == Candidate(name, j);
      r
  }

  /** `createNewFile(inDirectory:withName:)`: starting from the preferred name, try copy 1, 2,
      3, … until a path does not exist; `created` is whether the file system then creates the
      file, and `couldNotCreateFile` is thrown when it does not. */
  method CreateNewFile(dir: Directory, name: string, created: bool) returns (r: Result<Path, Failure>)
    ensures r.Failure? <==> !created
    ensures r.Failure? ==> r.error == MiniLock(CouldNotCreateFile)
    ensures r.Success? ==> !Exists(dir, r.value)
    ensures r.Success? ==> forall j :: 0 <= j < FirstFree(dir, name) ==> Exists(dir, Attempt(dir, name, j))
    ensures r.Success? ==> r.value == Attempt(dir, name, FirstFree(dir, name))
  {
    var fullPath := Path(false, name);
    var copyIndex := 1;
    ghost var free := FirstFree(dir, name);
    while Exists(dir, fullPath)
      invariant 1 <= copyIndex <= free + 1 && fullPath == Attempt(dir, name, copyIndex - 1)
      decreases free + 1 - copyIndex
    {
      assert copyIndex - 1 < free;
      fullPath := CopyPath(dir, name, copyIndex);
      copyIndex := copyIndex + 1;
    }
    assert copyIndex - 1 == free;
    if !created {
      return Failure(MiniLock(CouldNotCreateFile));
    }
    return Success(fullPath);
  }

  /** The functional form of `CreateNewFile`, for the operations that call it: a non-empty name
      is kept when free and otherwise replaced by its first free copy in the directory; the
      empty name names the directory itself, so it becomes the first free copy of the
      directory's name in the parent. It picks the path that `CreateNewFile` returns. */
  function NewFile(dir: Directory, name: string, created: bool): (r: Result<Path, Failure>)
    ensures r.Failure? <==> !created
    ensures r.Success? ==> r.value == Attempt(dir, name, FirstFree(dir, name))
    ensures r.Success? ==> !Exists(dir, r.value)
    ensures r.Success? && name != "" && name !in dir.entries ==> r.value == Path(false, name)
    ensures r.Success? && name != "" && name in dir.entries ==> exists k :: (k >= 1 && r.value == Path(false, NewName(name, k))
      && forall j :: 1 <= j < k ==> NewName(name, j) in dir.entries)
    ensures r.Success? && name == "" ==> exists k :: (k >= 1 && r.value == Path(true, NewName(dir.name, k))
      && forall j :: 1 <= j < k ==> NewName(dir.name, j) in dir.siblings)
  {
    if !created then Failure(MiniLock(CouldNotCreateFile))
    else
      var k := FirstFree(dir, name);
      if name == "" then
        assert Exists(dir, Attempt(dir, name, 0));
        assert forall j :: 1 <= j < k ==> NewName(dir.name, j) in dir.siblings by {
          forall j | 1 <= j < k ensures NewName(dir.name, j) in dir.siblings {
            assert Exists(dir, Attempt(dir, name, j));
          }
        }
        Success(Path(true, NewName(dir.name, k)))
      else if name in dir.entries then
        assert Exists(dir, Attempt(dir, name, 0));
        assert forall j :: 1 <= j < k ==> NewName(name, j) in dir.entries by {
          forall j | 1 <= j < k ensures NewName(name, j) in dir.entries {
            assert Exists(dir, Attempt(dir, name, j));
          }
        }
        Success(Path(false, NewName(name, k)))
      else
        Success(Path(false, name))
  }
}
