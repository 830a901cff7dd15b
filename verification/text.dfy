/** String utilities: Foundation's `replacingOccurrences(of:with:)`, the header's slash unescaping,
    and the app's `String.adding(seperator:afterCharacters:)`. Strings are sequences of characters. */
module Text {
  import opened Wrappers
  import opened Bytes
  import opened Seqs

  /** `pat` occurs in `s` starting at index `i`. */
  predicate OccursAt(s: string, pat: string, i: nat) {
    i + |pat| <= |s| && s[i..i + |pat|] == pat
  }

  /** The position of the last `c` in `s`, if any. */
  function LastIndexOf(s: string, c: char): (r: Option<nat>)
    ensures r.Some? ==> r.value < |s| && s[r.value] == c && forall j :: r.value < j < |s| ==> s[j] != c
    ensures r.None? ==> forall j :: 0 <= j < |s| ==> s[j] != c
  {
    if |s| == 0 then None
    else if s[|s| - 1] == c then Some(|s| - 1)
    else LastIndexOf(s[..|s| - 1], c)
  }

  /** A `c` with none after it is the last one. */
  lemma LastIndexOfAt(s: string, c: char, k: nat)
    requires k < |s| && s[k] == c
    requires forall j :: k < j < |s| ==> s[j] != c
    ensures LastIndexOf(s, c) == Some(k)
  {
  }

  /** Appending text without `c` to text that ends in `c` leaves that `c` the last one. */
  lemma LastIndexOfAppend(a: string, b: string, c: char)
    requires |a| > 0 && a[|a| - 1] == c
    requires forall j :: 0 <= j < |b| ==> b[j] != c
    ensures LastIndexOf(a + b, c) == Some(|a| - 1)
  {
    var m := a + b;
    forall j | |a| - 1 < j < |m|
      ensures m[j] != c
    {
      assert m[j] == b[j - |a|];
    }
    LastIndexOfAt(m, c, |a| - 1);
  }

  /** `s.replacingOccurrences(of: pat, with: rep)`: a left-to-right scan that replaces each
      non-overlapping occurrence of `pat` and copies every other character. */
  function ReplaceAll(s: string, pat: string, rep: string): (r: string)
    requires |pat| > 0
    ensures NoOccurrence(s, pat) ==> r == s
    ensures |rep| <= |pat| ==> |r| <= |s|
    decreases |s|
  {
    if |s| < |pat| then s
    else if s[..|pat|] == pat then
      assert OccursAt(s, pat, 0);
      rep + ReplaceAll(s[|pat|..], pat, rep)
    else
      assert NoOccurrence(s, pat) ==> NoOccurrence(s[1..], pat) by {
        if NoOccurrence(s, pat) {
          forall i | 0 <= i <= |s[1..]|
            ensures !OccursAt(s[1..], pat, i)
          {
            assert !OccursAt(s, pat, i + 1);
            if i + |pat| <= |s[1..]| {
              assert s[1..][i..i + |pat|] == s[i + 1..i + 1 + |pat|];
            }
          }
        }
      }
      [s[0]] + ReplaceAll(s[1..], pat, rep)
  }

  /** `pat` occurs nowhere in `s`. */
  predicate NoOccurrence(s: string, pat: string) {
    forall i :: 0 <= i <= |s| ==> !OccursAt(s, pat, i)
  }

  /** Text that never contains the pattern's first character contains no occurrence of it. */
  lemma NoOccurrenceOfHead(s: string, pat: string)
    requires |pat| > 0 && forall i :: 0 <= i < |s| ==> s[i] != pat[0]
    ensures NoOccurrence(s, pat)
  {
    forall i | 0 <= i <= |s|
      ensures !OccursAt(s, pat, i)
    {
      if i + |pat| <= |s| {
        assert s[i..i + |pat|][0] == s[i] != pat[0];
      }
    }
  }

  /** An occurrence of the pattern at the front is replaced, and the scan resumes after it. */
  lemma ReplaceFront(pat: string, rest: string, rep: string)
    requires |pat| > 0
    ensures ReplaceAll(pat + rest, pat, rep) == rep + ReplaceAll(rest, pat, rep)
  {
    var s := pat + rest;
    assert s[..|pat|] == pat && s[|pat|..] == rest;
  }

  /** A front character that does not start an occurrence is copied: either it differs from the
      pattern's first character, or the next one differs from (or lacks) its second. */
  lemma ReplaceSkip(c: char, rest: string, pat: string, rep: string)
    requires |pat| > 0
    requires c != pat[0] || (|pat| > 1 && (|rest| == 0 || rest[0] != pat[1]))
    ensures ReplaceAll([c] + rest, pat, rep) == [c] + ReplaceAll(rest, pat, rep)
  {
    var s := [c] + rest;
    assert s[1..] == rest && s[0] == c;
    if |s| < |pat| {
      assert ReplaceAll(rest, pat, rep) == rest;
    } else if c != pat[0] {
      assert s[..|pat|][0] != pat[0];
    } else {
      assert s[..|pat|][1] == rest[0];
    }
  }

  /** What `toJSONStringWithoutEscapes` does to the JSON text: every `\/` becomes `/`. */
  function StripSlashEscapes(json: string): (r: string)
    ensures NoOccurrence(json, "\\/") ==> r == json
    ensures |r| <= |json|
  {
    ReplaceAll(json, "\\/", "/")
  }

  /** How a JSON writer escapes one character of a string value; `escapeSlash` says whether
      `/` is written as `\/`, as Foundation's JSON writer does. */
  function EscapeJsonChar(c: char, escapeSlash: bool): string {
    if c == '\\' then "\\\\"
    else if c == '"' then "\\\""
    else if c == '/' then (if escapeSlash then "\\/" else "/")
    else [c]
  }

  /** The JSON text of a string value's characters. */
  function EscapeJson(t: string, escapeSlash: bool): (r: string)
    ensures escapeSlash && |r| > 0 ==> r[0] != '/'
  {
    if |t| == 0 then "" else EscapeJsonChar(t[0], escapeSlash) + EscapeJson(t[1..], escapeSlash)
  }

  /** Unescaping keeps a first character that is not a backslash. */
  lemma StripKeepsFirst(t: string)
    requires |t| > 0 && t[0] != '\\'
    ensures |StripSlashEscapes(t)| > 0 && StripSlashEscapes(t)[0] == t[0]
  {
    StripPlain(t[0], t[1..]);
    assert t == [t[0]] + t[1..];
  }

  lemma StripPlain(c: char, rest: string)
    requires c != '\\'
    ensures StripSlashEscapes([c] + rest) == [c] + StripSlashEscapes(rest)
  {
    var e := [c] + rest;
    assert e[1..] == rest;
    if |e| >= 2 {
      assert e[..2][0] == c;
    }
  }

  lemma StripBackslash(rest: string)
    requires |rest| == 0 || rest[0] != '/'
    ensures StripSlashEscapes(['\\'] + rest) == ['\\'] + StripSlashEscapes(rest)
  {
    var e := ['\\'] + rest;
    assert e[1..] == rest;
    if |e| >= 2 {
      assert e[..2] == ['\\', rest[0]];
    }
  }

  lemma StripSlash(rest: string)
    ensures StripSlashEscapes("\\/" + rest) == "/" + StripSlashEscapes(rest)
  {
    var e := "\\/" + rest;
    assert e[..2] == "\\/" && e[2..] == rest;
  }

  /** Removing the slash escapes from Foundation's JSON text of a string yields the same string
      written without slash escapes: escaped backslashes in front of a `/` are left alone, so the
      text still denotes the same value. */
  lemma {:induction false} StripSlashEscapesKeepsValue(t: string)
    ensures StripSlashEscapes(EscapeJson(t, true)) == EscapeJson(t, false)
  {
    if |t| > 0 {
      var rest := EscapeJson(t[1..], true);
      StripSlashEscapesKeepsValue(t[1..]);
      StripEscapedChar(t[0], rest);
      assert EscapeJson(t, true) == EscapeJsonChar(t[0], true) + rest;
    }
  }

  /** Unescaping one escaped character followed by text that does not start with `/`. */
  lemma StripEscapedChar(c: char, rest: string)
    requires |rest| == 0 || rest[0] != '/'
    ensures StripSlashEscapes(EscapeJsonChar(c, true) + rest) == EscapeJsonChar(c, false) + StripSlashEscapes(rest)
  {
    if c == '\\' {
      StripEscapedPair('\\', rest);
    } else if c == '"' {
      StripEscapedPair('"', rest);
    } else if c == '/' {
      StripSlash(rest);
    } else {
      StripPlain(c, rest);
    }
  }

  /** A backslash followed by a character other than `/` passes through unescaping unchanged. */
  lemma StripEscapedPair(c: char, rest: string)
    requires c != '/'
    requires |rest| == 0 || rest[0] != '/'
    ensures StripSlashEscapes(['\\', c] + rest) == ['\\', c] + StripSlashEscapes(rest)
  {
    assert ['\\', c] + rest == ['\\'] + ([c] + rest);
    if c == '\\' {
      StripBackslash(rest);
    } else {
      StripPlain(c, rest);
    }
    StripBackslash([c] + rest);
    assert ['\\'] + ([c] + StripSlashEscapes(rest)) == ['\\', c] + StripSlashEscapes(rest);
  }

  /** The chunks joined with `sep` between neighbours, none before the first or after the last. */
  function Join(chunks: seq<string>, sep: string): string {
    if |chunks| == 0 then ""
    else if |chunks| == 1 then chunks[0]
    else chunks[0] + sep + Join(chunks[1..], sep)
  }

  /** The characters of `s` from index `i` on; empty once `i` is past the end. */
  function From(s: string, i: nat): string {
    if i < |s| then s[i..] else ""
  }

  lemma Associate(a: string, b: string, c: string, d: string)
    ensures a + (b + c + d) == (a + b) + c + d
  {
  }

  /** `s` is `a`, then `m`, then `b` exactly when its slices at those lengths are. */
  lemma Frame(s: string, a: string, m: string, b: string)
    ensures s == a + m + b
      <==> |a| + |b| <= |s| && s[..|a|] == a && s[|a|..|s| - |b|] == m && s[|s| - |b|..] == b
  {
    if |a| + |b| <= |s| && s[..|a|] == a && s[|a|..|s| - |b|] == m && s[|s| - |b|..] == b {
      assert s == s[..|a|] + s[|a|..|s| - |b|] + s[|s| - |b|..];
    }
  }

  /** One round of `Adding`'s loop: the chunk at `start` comes off the front of the rest. */
  lemma ChunkStep(s: string, n: nat, start: nat, end: nat, sep: string)
    requires 0 < n && start < |s| && end == (if start + n <= |s| then start + n else |s|)
    ensures Join(SplitEvery(From(s, start), n), sep)
      == s[start..end] + (if start + n < |s| then sep else "") + Join(SplitEvery(From(s, start + n), n), sep)
  {
    var t := From(s, start);
    if end < |s| {
      assert t[..n] == s[start..end];
      assert t[n..] == From(s, start + n);
      assert SplitEvery(t, n) == [s[start..end]] + SplitEvery(From(s, start + n), n);
    } else {
      assert t == s[start..end];
      assert SplitEvery(t, n) == [s[start..end]];
      assert From(s, start + n) == "";
    }
  }

  /** `adding(seperator:afterCharacters:)`: the characters of `s` in consecutive chunks of `n`,
      joined by `sep`. Swift's `stride(from: 0, to: count, by: n)` traps when `n` is 0 and is
      empty when `n` is negative. */
  method Adding(s: string, sep: string, n: int) returns (r: string)
    requires n != 0
    ensures n < 0 ==> r == ""
    ensures n > 0 ==> r == Join(SplitEvery(s, n), sep)
  {
    r := "";
    if n < 0 {
      return;
    }
    var start := 0;
    ghost var total := Join(SplitEvery(s, n), sep);
    while start < |s|
      invariant start == 0 ==> r == ""
      invariant total == r + (if 0 < start < |s| then sep else "") + Join(SplitEvery(From(s, start), n), sep)
    {
      ghost var before := r + (if 0 < start then sep else "");
      if start > 0 {
        r := r + sep;
      }
      assert r == before;
      var end := if start + n <= |s| then start + n else |s|;
      ChunkStep(s, n, start, end, sep);
      ghost var gap := if start + n < |s| then sep else "";
      ghost var rest := Join(SplitEvery(From(s, start + n), n), sep);
      var chunk := s[start..end];
      r := r + chunk;
      Associate(before, chunk, gap, rest);
      assert total == r + gap + rest;
      start := start + n;
    }
  }

  /** Joining non-empty input adds one separator between each pair of neighbouring chunks. */
  lemma {:induction false} JoinLength(chunks: seq<string>, sep: string)
    requires |chunks| > 0
    ensures |Join(chunks, sep)| == |Concat(chunks)| + (|chunks| - 1) * |sep|
  {
    if |chunks| > 1 {
      JoinLength(chunks[1..], sep);
    }
  }
}
