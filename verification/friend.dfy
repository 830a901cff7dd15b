/** The app's `Friend`: a name with a miniLock id, the text its QR code carries and the JSON
    record it is stored as. The QR text is "SL:N:" + name + ";I:" + Base58 id + ";;", with a
    backslash put in front of every ';' and ':' of the name. */
module Friends {
  import opened Wrappers
  import opened Primitives
  import opened Identity
  import opened Text

  datatype Friend = Friend(name: string, id: Id)

  /** What escaping makes of one character of a name. */
  function EscapeChar(c: char): string {
    if c == ';' || c == ':' then ['\\', c] else [c]
  }

  /** Reference definition of an escaped name: a backslash goes in front of each ';' and ':',
      and every other character stays as it is. */
  function EscapeEach(name: string): string {
    if |name| == 0 then "" else EscapeChar(name[0]) + EscapeEach(name[1..])
  }

  /** A name with only its ':' escaped: what is left once "\;" has been read back. */
  function ColonsEscaped(name: string): string {
    if |name| == 0 then "" else (if name[0] == ':' then "\\:" else [name[0]]) + ColonsEscaped(name[1..])
  }

  /** A one-character pattern is replaced or copied at the front, and the scan goes on. */
  lemma ReplaceCharFront(s: string, c: char, rep: string)
    requires |s| > 0
    ensures ReplaceAll(s, [c], rep) == (if s[0] == c then rep else [s[0]]) + ReplaceAll(s[1..], [c], rep)
  {
    assert s == [s[0]] + s[1..];
    if s[0] == c {
      ReplaceFront([c], s[1..], rep);
    } else {
      ReplaceSkip(s[0], s[1..], [c], rep);
    }
  }

  /** Replacing a one-character pattern works character by character. */
  lemma {:induction false} ReplaceCharAppend(a: string, b: string, c: char, rep: string)
    ensures ReplaceAll(a + b, [c], rep) == ReplaceAll(a, [c], rep) + ReplaceAll(b, [c], rep)
    decreases |a|
  {
    if |a| == 0 {
      assert a + b == b;
    } else {
      var s := a + b;
      assert s[0] == a[0] && s[1..] == a[1..] + b;
      var x := if a[0] == c then rep else [a[0]];
      var p, q := ReplaceAll(a[1..], [c], rep), ReplaceAll(b, [c], rep);
      assert ReplaceAll(s, [c], rep) == x + ReplaceAll(a[1..] + b, [c], rep) by { ReplaceCharFront(s, c, rep); }
      assert ReplaceAll(a, [c], rep) == x + p by { ReplaceCharFront(a, c, rep); }
      assert ReplaceAll(a[1..] + b, [c], rep) == p + q by { ReplaceCharAppend(a[1..], b, c, rep); }
      Regroup(ReplaceAll(s, [c], rep), ReplaceAll(a[1..] + b, [c], rep), ReplaceAll(a, [c], rep), x, p, q);
    }
  }

  /** `whole == x + tail`, `tail == p + q` and `front == x + p` give `whole == front + q`. */
  lemma Regroup(whole: string, tail: string, front: string, x: string, p: string, q: string)
    requires whole == x + tail && tail == p + q && front == x + p
    ensures whole == front + q
  {
  }

  /** The two passes of `qrCodeScheme`'s escaping agree with the reference, one character at a
      time: the second pass does not touch the backslashes the first one put in. */
  lemma {:induction false} EscapeTwoPasses(name: string)
    ensures ReplaceAll(ReplaceAll(name, ";", "\\;"), ":", "\\:") == EscapeEach(name)
  {
    if |name| > 0 {
      var x, rest := name[0], name[1..];
      assert name == [x] + rest;
      ReplaceCharAppend([x], rest, ';', "\\;");
      var first := ReplaceAll([x], ";", "\\;");
      ReplaceCharAppend(first, ReplaceAll(rest, ";", "\\;"), ':', "\\:");
      EscapeTwoPasses(rest);
      if x == ';' {
        assert first == "\\;";
        ReplaceCharAppend("\\", ";", ':', "\\:");
      } else {
        assert first == [x];
      }
    }
  }

  /** The escaping of `qrCodeScheme`: ';' becomes "\;", then ':' becomes "\:". */
  function EscapeName(name: string): (r: string)
    ensures r == EscapeEach(name)
  {
    EscapeTwoPasses(name);
    ReplaceAll(ReplaceAll(name, ";", "\\;"), ":", "\\:")
  }

  /** The unescaping of `decodeQRCodeScheme`: "\;" becomes ';', then "\:" becomes ':'. */
  function Unescape(n: string): (r: string)
    ensures (forall i :: 0 <= i < |n| ==> n[i] != '\\') ==> r == n
    ensures |r| <= |n|
  {
    assert (forall i :: 0 <= i < |n| ==> n[i] != '\\') ==> NoOccurrence(n, "\\;") && NoOccurrence(n, "\\:") by {
      if forall i :: 0 <= i < |n| ==> n[i] != '\\' {
        NoOccurrenceOfHead(n, "\\;");
        NoOccurrenceOfHead(n, "\\:");
      }
    }
    ReplaceAll(ReplaceAll(n, "\\;", ";"), "\\:", ":")
  }

  /** An escaped name never starts with ';' or ':'. */
  lemma EscapeEachHead(name: string)
    ensures |EscapeEach(name)| > 0 ==> EscapeEach(name)[0] != ';' && EscapeEach(name)[0] != ':'
  {
    if |name| > 0 {
      assert EscapeEach(name)[0] == EscapeChar(name[0])[0];
    }
  }

  /** A name with escaped colons never starts with ':'. */
  lemma ColonsEscapedHead(name: string)
    ensures |ColonsEscaped(name)| > 0 ==> ColonsEscaped(name)[0] != ':'
  {
    if |name| > 0 {
      assert ColonsEscaped(name)[0] == (if name[0] == ':' then "\\:" else [name[0]])[0];
    }
  }

  /** An escaped colon is copied when "\;" is read back. */
  lemma UnescapeSemicolonsSkipColon(e: string)
    ensures ReplaceAll("\\:" + e, "\\;", ";") == "\\:" + ReplaceAll(e, "\\;", ";")
  {
    var t := [':'] + e;
    assert "\\:" + e == ['\\'] + t;
    assert ReplaceAll(['\\'] + t, "\\;", ";") == ['\\'] + ReplaceAll(t, "\\;", ";") by {
      ReplaceSkip('\\', t, "\\;", ";");
    }
    ReplaceSkip(':', e, "\\;", ";");
  }

  /** Reading back "\;" in an escaped name restores its semicolons: a backslash of the name
      itself is never followed by ';', since the escaping put its own backslash in between. */
  lemma {:induction false} UnescapeSemicolons(name: string)
    ensures ReplaceAll(EscapeEach(name), "\\;", ";") == ColonsEscaped(name)
  {
    if |name| > 0 {
      var x, e := name[0], EscapeEach(name[1..]);
      UnescapeSemicolons(name[1..]);
      EscapeEachHead(name[1..]);
      if x == ';' {
        assert EscapeEach(name) == "\\;" + e;
        ReplaceFront("\\;", e, ";");
      } else if x == ':' {
        assert EscapeEach(name) == "\\:" + e;
        UnescapeSemicolonsSkipColon(e);
      } else {
        assert EscapeEach(name) == [x] + e;
        ReplaceSkip(x, e, "\\;", ";");
      }
    }
  }

  /** Reading back "\:" in one character with its colon escaped, in front of text that does not
      start with ':'. */
  lemma UnescapeColonStep(x: char, c: string)
    requires |c| > 0 ==> c[0] != ':'
    ensures ReplaceAll((if x == ':' then "\\:" else [x]) + c, "\\:", ":") == [x] + ReplaceAll(c, "\\:", ":")
  {
    if x == ':' {
      ReplaceFront("\\:", c, ":");
    } else {
      ReplaceSkip(x, c, "\\:", ":");
    }
  }

  /** Reading back "\:" restores the colons. */
  lemma {:induction false} UnescapeColons(name: string)
    ensures ReplaceAll(ColonsEscaped(name), "\\:", ":") == name
  {
    if |name| > 0 {
      UnescapeColons(name[1..]);
      ColonsEscapedHead(name[1..]);
      UnescapeColonStep(name[0], ColonsEscaped(name[1..]));
      assert name == [name[0]] + name[1..];
    }
  }

  /** Unescaping undoes escaping for every name, backslashes included. */
  lemma UnescapeEscape(name: string)
    ensures Unescape(EscapeName(name)) == name
  {
    UnescapeSemicolons(name);
    UnescapeColons(name);
  }

  /** The name group of the QR pattern without its lower bound: a run of escaped pairs "\;" and
      "\:" and of characters other than ':' and ';'. A backslash may be read either way. */
  predicate Tokens(n: string)
    decreases |n|
  {
    || |n| == 0
    || (n[0] != ':' && n[0] != ';' && Tokens(n[1..]))
    || (|n| >= 2 && n[0] == '\\' && (n[1] == ';' || n[1] == ':') && Tokens(n[2..]))
  }

  /** The name group itself: at least one token. */
  predicate NameGroup(n: string) {
    |n| > 0 && Tokens(n)
  }

  /** Every ':' and ';' has a backslash right in front of it. */
  predicate Escaped(n: string) {
    forall i :: 0 <= i < |n| && (n[i] == ':' || n[i] == ';') ==> i > 0 && n[i - 1] == '\\'
  }

  /** The pattern's name tokens are exactly the texts whose ':' and ';' are all escaped. */
  lemma {:induction false} TokensEscaped(n: string)
    ensures Tokens(n) <==> Escaped(n)
    decreases |n|
  {
    if |n| > 0 {
      TokensEscaped(n[1..]);
      if |n| >= 2 {
        TokensEscaped(n[2..]);
      }
      if Escaped(n) {
        assert n[0] != ':' && n[0] != ';';
        if |n| >= 2 && n[0] == '\\' && (n[1] == ';' || n[1] == ':') {
          assert Escaped(n[2..]) by {
            forall i | 0 <= i < |n| - 2 && (n[2..][i] == ':' || n[2..][i] == ';')
              ensures i > 0 && n[2..][i - 1] == '\\'
            {
              assert n[i + 2] == n[2..][i];
            }
          }
        } else {
          assert Escaped(n[1..]) by {
            forall i | 0 <= i < |n| - 1 && (n[1..][i] == ':' || n[1..][i] == ';')
              ensures i > 0 && n[1..][i - 1] == '\\'
            {
              assert n[i + 1] == n[1..][i];
            }
          }
        }
      }
      if Tokens(n) {
        forall i | 0 <= i < |n| && (n[i] == ':' || n[i] == ';')
          ensures i > 0 && n[i - 1] == '\\'
        {
          if n[0] != ':' && n[0] != ';' && Tokens(n[1..]) {
            assert n[1..][i - 1] == n[i];
          } else {
            assert |n| >= 2 && n[0] == '\\' && (n[1] == ';' || n[1] == ':') && Tokens(n[2..]);
            if i >= 2 {
              assert n[2..][i - 2] == n[i];
            }
          }
        }
      }
    }
  }

  /** An escaped name is a run of the pattern's name tokens. */
  lemma {:induction false} EscapeEachTokens(name: string)
    ensures Tokens(EscapeEach(name))
    ensures |EscapeEach(name)| >= |name|
  {
    if |name| > 0 {
      EscapeEachTokens(name[1..]);
      var s := EscapeEach(name);
      var x := name[0];
      if x == ';' || x == ':' {
        assert s[2..] == EscapeEach(name[1..]);
      } else {
        assert s[1..] == EscapeEach(name[1..]);
      }
    }
  }

  /** The whole-string match of the QR pattern `^SL:N:(name);I:(id);;$` with `n` and `d` as
      the two capture groups: the id group is one or more Base58 digits. */
  predicate SchemeMatches(scheme: string, n: string, d: string) {
    && scheme == "SL:N:" + n + ";I:" + d + ";;"
    && NameGroup(n)
    && |d| > 0
    && IsBase58(d)
  }

  /** No Base58 digit is a ':'. */
  lemma ColonNotBase58(d: string, j: nat)
    requires IsBase58(d) && j < |d|
    ensures d[j] != ':'
  {
    assert IsBase58Digit(d[j]);
  }

  /** In a name, ";I:" and an id, the last ':' is the separator's. */
  lemma LastColon(n: string, d: string)
    requires IsBase58(d)
    ensures LastIndexOf(n + ";I:" + d, ':') == Some(|n| + 2)
  {
    var a := n + ";I:";
    assert a[|a| - 1] == ':';
    forall j | 0 <= j < |d|
      ensures d[j] != ':'
    {
      ColonNotBase58(d, j);
    }
    LastIndexOfAppend(a, d, ':');
  }

  /** The text between the "SL:N:" prefix and the ";;" suffix. */
  function SchemeBody(scheme: string): (r: Option<string>)
    ensures r.Some? <==> |scheme| >= 7 && scheme[..5] == "SL:N:" && scheme[|scheme| - 2..] == ";;"
    ensures r.Some? ==> scheme == "SL:N:" + r.value + ";;"
  {
    if |scheme| < 7 || scheme[..5] != "SL:N:" || scheme[|scheme| - 2..] != ";;" then None
    else
      var middle := scheme[5..|scheme| - 2];
      Frame(scheme, "SL:N:", middle, ";;");
      Some(middle)
  }

  /** The body split at its last ':', which must end ";I:". */
  function SplitBody(middle: string): (r: Option<(string, string)>)
    ensures r.Some? ==> middle == r.value.0 + ";I:" + r.value.1
  {
    match LastIndexOf(middle, ':')
    case None => None
    case Some(j) =>
      if j < 2 || middle[j - 2..j + 1] != ";I:" then None
      else
        Frame(middle, middle[..j - 2], ";I:", middle[j + 1..]);
        Some((middle[..j - 2], middle[j + 1..]))
  }

  /** The two capture groups, found deterministically: strip "SL:N:" and ";;", split at the
      last ':' (the id has none), and check that ";I:" ends there. */
  function SplitScheme(scheme: string): (r: Option<(string, string)>)
    ensures r.Some? ==> SchemeMatches(scheme, r.value.0, r.value.1)
  {
    match SchemeBody(scheme)
    case None => None
    case Some(middle) =>
      match SplitBody(middle)
      case None => None
      case Some((n, d)) =>
        if NameGroup(n) && |d| > 0 && IsBase58(d) then
          Associate("SL:N:", n, ";I:", d);
          Some((n, d))
        else None
  }

  /** Every whole-string match is found, so the capture groups of a match are unique. */
  lemma SplitSchemeComplete(scheme: string, n: string, d: string)
    requires SchemeMatches(scheme, n, d)
    ensures SplitScheme(scheme) == Some((n, d))
  {
    var middle := n + ";I:" + d;
    Associate("SL:N:", n, ";I:", d);
    Frame(scheme, "SL:N:", middle, ";;");
    assert SchemeBody(scheme) == Some(middle);
    LastColon(n, d);
    Frame(middle, n, ";I:", d);
    assert SplitBody(middle) == Some((n, d));
  }

  /** `decodeQRCodeScheme`: the whole text must match the pattern; the name group is unescaped
      and the id group must make a valid id. */
  function DecodeQRCodeScheme(p: Primitives, scheme: string): (r: Option<(string, Id)>)
    ensures r.Some? ==> exists n, d :: && SchemeMatches(scheme, n, d)
                                       && FromBase58String(p, d) == Some(r.value.1)
                                       && r.value.0 == Unescape(n)
  {
    match SplitScheme(scheme)
    case None => None
    case Some((n, d)) =>
      match FromBase58String(p, d)
      case None => None
      case Some(id) => Some((Unescape(n), id))
  }

  /** A text matching the pattern decodes to its unescaped name group, when its id group makes
      a valid id, and to nothing otherwise. */
  lemma DecodeMatched(p: Primitives, scheme: string, n: string, d: string)
    requires SchemeMatches(scheme, n, d)
    ensures FromBase58String(p, d).None? ==> DecodeQRCodeScheme(p, scheme) == None
    ensures FromBase58String(p, d).Some? ==>
      DecodeQRCodeScheme(p, scheme) == Some((Unescape(n), FromBase58String(p, d).value))
  {
    SplitSchemeComplete(scheme, n, d);
  }

  /** `init?(fromQRCodeScheme:)`: a friend exactly when the text decodes. */
  function FromQRCodeScheme(p: Primitives, scheme: string): (r: Option<Friend>)
    ensures r.Some? <==> DecodeQRCodeScheme(p, scheme).Some?
    ensures r.Some? ==> Valid(p, r.value.id)
    ensures r.Some? ==> exists n, d :: SchemeMatches(scheme, n, d) && r.value.name == Unescape(n)
  {
    match DecodeQRCodeScheme(p, scheme)
    case None => None
    case Some((name, id)) => Some(Friend(name, id))
  }

  /** `qrCodeScheme`: a friend with a name and a valid id writes a text that matches the
      pattern, with the escaped name and the id's Base58 text as its groups. */
  function QRCodeScheme(f: Friend): (r: string)
    ensures |f.name| > 0 && |f.id.description| > 0 && IsBase58(f.id.description) ==>
      SchemeMatches(r, EscapeEach(f.name), f.id.description)
  {
    EscapeEachTokens(f.name);
    "SL:N:" + EscapeName(f.name) + ";I:" + f.id.description + ";;"
  }

  /** Scanning a friend's QR code gives the same friend back, whatever its name holds
      (backslashes, ';' and ':' included), as long as the name is not empty. */
  lemma QRCodeRoundTrip(p: Primitives, f: Friend)
    requires p.Base58Lawful() && Valid(p, f.id) && |f.name| > 0
    ensures FromQRCodeScheme(p, QRCodeScheme(f)) == Some(f)
  {
    DescriptionIsBase58(p, f.id);
    ReadDescription(p, f.id);
    DecodeMatched(p, QRCodeScheme(f), EscapeEach(f.name), f.id.description);
    UnescapeEscape(f.name);
  }

  /** A friend with an empty name writes a QR code that does not decode: the pattern's name
      group needs at least one character. */
  lemma EmptyNameRejected(p: Primitives, id: Id)
    requires p.Base58Lawful() && Valid(p, id)
    ensures FromQRCodeScheme(p, QRCodeScheme(Friend("", id))) == None
  {
    DescriptionIsBase58(p, id);
    var scheme := QRCodeScheme(Friend("", id));
    var d := id.description;
    assert scheme == "SL:N:" + ("" + ";I:" + d) + ";;";
    assert scheme[5..|scheme| - 2] == "" + ";I:" + d;
    LastColon("", d);
  }

  /** `mapping(map:)`: a friend is stored as its name and its id's Base58 text. */
  function ToRecord(f: Friend): FriendRecord {
    FriendRecord(f.name, f.id.description)
  }

  /** `init(map:)`: the stored id text must make a valid id, or the mapping throws. */
  function FromRecord(p: Primitives, rec: FriendRecord): (r: Option<Friend>)
    ensures r.Some? <==> FromBase58String(p, rec.id).Some?
    ensures r.Some? ==> r.value.name == rec.name && r.value.id.description == rec.id && Valid(p, r.value.id)
  {
    match FromBase58String(p, rec.id)
    case None => None
    case Some(id) => Some(Friend(rec.name, id))
  }

  /** A stored friend reads back as the same friend. */
  lemma RecordRoundTrip(p: Primitives, f: Friend)
    requires Valid(p, f.id)
    ensures FromRecord(p, ToRecord(f)) == Some(f)
  {
    ReadDescription(p, f.id);
  }
}
