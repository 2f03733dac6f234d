/** The part of Python's `urllib.parse.urlparse` that decides the netloc,
    path and query of a URL: the simplified component split of section 3 of
    RFC 3986 (scheme ":" "//" authority path "?" query "#" fragment) as
    CPython 3.12 performs it. Percent-decoding, IPv6 literals and the netloc
    Unicode check are not modelled. */
module UrlParse {
  import opened Wrappers
  import opened Text

  /** The six fields of `urlparse`'s `ParseResult`. */
  datatype ParseResult = ParseResult(
    scheme: string, netloc: string, path: string,
    params: string, query: string, fragment: string)

  /** C0 control characters and space, stripped from the front of the input
      (the WHATWG URL standard's "C0 control or space"). */
  const C0ControlOrSpace: set<char> := set i: int | 0 <= i <= 0x20 :: i as char

  /** Tab, carriage return and line feed, deleted anywhere in the input. */
  const UnsafeChars: set<char> := {'\t', '\r', '\n'}

  /** The characters that end the authority component. */
  const NetlocDelimiters: set<char> := {'/', '?', '#'}

  /** The schemes whose last path segment may carry `;params`. */
  const UsesParams: set<string> := {
    "", "ftp", "hdl", "prospero", "http", "imap", "https", "shttp", "rtsp",
    "rtsps", "rtspu", "sip", "sips", "mms", "sftp", "tel"}

  /** A component written with its leading separator, or nothing when empty. */
  function Marked(sep: char, s: string): (r: string)
  {
    if s == "" then "" else [sep] + s
  }

  /** Free of tab, carriage return and line feed. */
  predicate IsSafe(s: string)
  {
    '\t' !in s && '\r' !in s && '\n' !in s
  }

  predicate IsAsciiLetter(c: char)
  {
    'a' <= c <= 'z' || 'A' <= c <= 'Z'
  }

  predicate IsSchemeChar(c: char)
  {
    IsAsciiLetter(c) || '0' <= c <= '9' || c == '+' || c == '-' || c == '.'
  }

  /** The input after the leading C0/space strip and the tab/CR/LF deletion. */
  function Sanitize(url: string): (r: string)
    ensures forall k :: 0 <= k < |r| ==> r[k] !in UnsafeChars
    ensures |url| > 0 && IsAsciiLetter(url[0]) && IsSafe(url) ==> r == url
  {
    var stripped := LStrip(url, C0ControlOrSpace);
    assert |url| > 0 && IsAsciiLetter(url[0]) ==> url[0] !in C0ControlOrSpace;
    Remove(stripped, UnsafeChars)
  }

  /** A link pasted after spaces or control characters is read as the link
      itself. */
  lemma LeadingBlankIgnored(pad: string, url: string)
    requires forall k :: 0 <= k < |pad| ==> pad[k] in C0ControlOrSpace
    requires |url| > 0 && IsAsciiLetter(url[0]) && IsSafe(url)
    ensures Sanitize(pad + url) == url
  {
    assert url[0] !in C0ControlOrSpace;
    LStripPad(pad, url, C0ControlOrSpace);
  }

  /** A tab, carriage return or line feed inside a link is deleted in place:
      the link reads as if it had never been there. */
  lemma UnsafeDeletedInPlace(a: string, c: char, b: string)
    requires |a| > 0 && IsAsciiLetter(a[0]) && c in UnsafeChars
    ensures Sanitize(a + [c] + b) == Sanitize(a + b)
  {
    LetterLedSanitize(a + [c] + b);
    LetterLedSanitize(a + b);
    RemoveDropsOne(a, c, b, UnsafeChars);
  }

  /** A link that starts with a letter loses only its tabs, carriage returns
      and line feeds. */
  lemma LetterLedSanitize(url: string)
    requires |url| > 0 && IsAsciiLetter(url[0])
    ensures Sanitize(url) == Remove(url, UnsafeChars)
  {
    LStripPad("", url, C0ControlOrSpace);
    assert "" + url == url;
  }

  /** A scheme is taken only when the text before the first ':' is non-empty,
      starts with an ASCII letter and consists of scheme characters; it is
      lower-cased. Otherwise the scheme is empty and the text is unchanged. */
  function SplitScheme(url: string): (r: (string, string))
    ensures r.0 == "" ==> r.1 == url
    ensures r.0 != "" ==> |r.0| < |url| && url == url[..|r.0|] + ":" + r.1 && IsAsciiLetter(url[0])
    ensures r.0 != "" ==> ':' !in url[..|r.0|] && r.0 == LowerAscii(url[..|r.0|])
    ensures forall k :: 0 <= k < |r.0| ==> IsSchemeChar(r.0[k]) && !IsUpperAscii(r.0[k])
    ensures forall i :: SchemeEndsAt(url, i) ==> |r.0| == i
  {
    match Find(url, ':')
    case None => ("", url)
    case Some(i) =>
      assert forall j :: SchemeEndsAt(url, j) ==> j == i by {
        forall j | SchemeEndsAt(url, j) ensures j == i {
          FirstColon(url, i, j);
        }
      }
      if i > 0 && IsAsciiLetter(url[0]) && AllSchemeChars(url[..i]) then
        assert url == url[..i] + ":" + url[i + 1..];
        (LowerAscii(url[..i]), url[i + 1..])
      else ("", url)
  }

  /** The text before the first ':' of `url`, which ends at `i`, is a
      scheme: non-empty, led by an ASCII letter, all scheme characters. */
  predicate SchemeEndsAt(url: string, i: int)
  {
    0 < i < |url| && url[i] == ':' && ':' !in url[..i] && IsAsciiLetter(url[0]) && AllSchemeChars(url[..i])
  }

  lemma FirstColon(url: string, i: nat, j: nat)
    requires i < |url| && url[i] == ':' && ':' !in url[..i]
    requires j < |url| && url[j] == ':' && ':' !in url[..j]
    ensures i == j
  {
  }

  predicate AllSchemeChars(s: string)
  {
    forall k :: 0 <= k < |s| ==> IsSchemeChar(s[k])
  }

  /** After the scheme, a leading "//" opens the authority, which runs to the
      first '/', '?' or '#'. */
  function SplitNetloc(url: string): (r: (string, string))
    ensures forall k :: 0 <= k < |r.0| ==> r.0[k] !in NetlocDelimiters
    ensures r.1 == "" || r.1 == url || r.1[0] in NetlocDelimiters
    ensures (|url| < 2 || url[..2] != "//") ==> r == ("", url)
    ensures |url| >= 2 && url[..2] == "//" ==> url == "//" + r.0 + r.1
  {
    if |url| >= 2 && url[..2] == "//" then
      var delim := match FindAnyFrom(url, NetlocDelimiters, 2)
                   case Some(d) => d
                   case None => |url|;
      assert url == url[..2] + url[2..delim] + url[delim..];
      (url[2..delim], url[delim..])
    else ("", url)
  }

  /** The text before the first `c` and the text after it ("" when absent). */
  function SplitAt(s: string, c: char): (r: (string, string))
    ensures c !in r.0
    ensures c in s ==> s == r.0 + [c] + r.1
    ensures c !in s ==> r == (s, "")
  {
    match Cut(s, c)
    case None => (s, "")
    case Some(parts) => parts
  }

  /** Every ';' of `s` has a '/' after it: the last segment of `s` holds
      no ';'. */
  predicate LastSegmentFree(s: string)
  {
    forall k :: 0 <= k < |s| && s[k] == ';' ==> '/' in s[k..]
  }

  /** `;params` are split from the last path segment: at the first ';' after
      the last '/', or at the first ';' when there is no '/'. The cut ';' has
      no '/' after it and what stays in front has no ';' in its last
      segment, which pins the cut down; without such a ';' the path is kept
      whole. */
  function SplitParams(path: string): (r: (string, string))
    ensures r == (path, "") || path == r.0 + ";" + r.1
    ensures '/' !in r.1
    ensures LastSegmentFree(r.0)
    ensures ';' in path && '/' !in path ==> path == r.0 + ";" + r.1
    ensures ';' !in path ==> r == (path, "")
  {
    match RFind(path, '/')
    case Some(slash) =>
      (match FindAnyFrom(path, {';'}, slash)
       case None =>
         assert LastSegmentFree(path) by {
           forall k | 0 <= k < |path| && path[k] == ';' ensures '/' in path[k..] {
             assert path[k..][slash - k] == '/';
           }
         }
         (path, "")
       case Some(i) =>
         assert path == path[..i] + ";" + path[i + 1..];
         assert LastSegmentFree(path[..i]) by {
           forall k | 0 <= k < i && path[..i][k] == ';' ensures '/' in path[..i][k..] {
             assert path[..i][k..][slash - k] == '/';
           }
         }
         (path[..i], path[i + 1..]))
    case None =>
      (match Find(path, ';')
       case None => (path, "")
       case Some(i) =>
         assert path == path[..i] + ";" + path[i + 1..];
         (path[..i], path[i + 1..]))
  }

  /** The contract of `SplitParams` decides its result: any split with
      those properties is the one `SplitParams` returns. */
  lemma SplitParamsDetermined(path: string, a: string, b: string)
    requires (a, b) == (path, "") || path == a + ";" + b
    requires '/' !in b && LastSegmentFree(a)
    ensures SplitParams(path) == (a, b)
  {
    var r := SplitParams(path);
    if r != (path, "") && (a, b) != (path, "") {
      CutsAgree(path, a, b, r.0, r.1);
      CutsAgree(path, r.0, r.1, a, b);
      SameCut(path, a, b, r.0, r.1);
    } else if r != (path, "") {
      NoCutBesideWhole(path, r.0, r.1);
    } else if (a, b) != (path, "") {
      NoCutBesideWhole(path, a, b);
    }
  }

  /** Two cuts at the same place are the same cut. */
  lemma SameCut(path: string, a1: string, b1: string, a2: string, b2: string)
    requires path == a1 + ";" + b1 && path == a2 + ";" + b2 && |a1| == |a2|
    ensures a1 == a2 && b1 == b2
  {
    assert a1 == path[..|a1|] && a2 == path[..|a1|];
    assert b1 == path[|a1| + 1..] && b2 == path[|a1| + 1..];
  }

  /** Two cuts with those properties: the first is not shorter than the
      second. */
  lemma CutsAgree(path: string, a1: string, b1: string, a2: string, b2: string)
    requires path == a1 + ";" + b1 && '/' !in b1
    requires path == a2 + ";" + b2 && LastSegmentFree(a2)
    ensures |a1| >= |a2|
  {
    if |a1| < |a2| {
      SlashAfterShorterCut(path, a1, b1, a2, b2);
      assert false;
    }
  }

  /** A cut before the cut of `a2` leaves a '/' after it. */
  lemma SlashAfterShorterCut(path: string, a1: string, b1: string, a2: string, b2: string)
    requires path == a1 + ";" + b1 && path == a2 + ";" + b2
    requires LastSegmentFree(a2) && |a1| < |a2|
    ensures '/' in b1
  {
    assert path[|a1|] == ';';
    assert a2[|a1|] == ';';
    assert '/' in a2[|a1|..];
    var m' :| 0 <= m' < |a2| - |a1| && a2[|a1|..][m'] == '/';
    assert path[|a1| + m'] == '/';
    assert b1[m' - 1] == '/';
  }

  /** A path whose last segment holds no ';' admits no such cut. */
  lemma NoCutBesideWhole(path: string, a: string, b: string)
    requires path == a + ";" + b && '/' !in b
    ensures !LastSegmentFree(path)
  {
    assert path[|a|] == ';';
    assert '/' !in path[|a|..] by {
      assert path[|a|..] == ";" + b;
    }
  }

  /** The path and `;params` of `fullPath`: split only for schemes that use
      params and only when a ';' is present. */
  function ParamsOf(scheme: string, fullPath: string): (r: (string, string))
    ensures r == (fullPath, "") || fullPath == r.0 + ";" + r.1
    ensures r.1 != "" ==> scheme in UsesParams
  {
    if scheme in UsesParams && ';' in fullPath then SplitParams(fullPath) else (fullPath, "")
  }

  /** The components found after the scheme: authority, then fragment, then
      query, then params. */
  function ParseHierarchy(scheme: string, afterScheme: string): (r: ParseResult)
    ensures r.scheme == scheme
    ensures forall k :: 0 <= k < |r.netloc| ==> r.netloc[k] !in NetlocDelimiters
    ensures '?' !in r.path && '#' !in r.path && '#' !in r.query
    ensures r.params != "" ==> r.scheme in UsesParams
  {
    var authority := SplitNetloc(afterScheme);
    var fragmentSplit := SplitAt(authority.1, '#');
    var querySplit := SplitAt(fragmentSplit.0, '?');
    var paramsSplit := ParamsOf(scheme, querySplit.0);
    var path := paramsSplit.0;
    assert '#' !in querySplit.1 by {
      if '?' in fragmentSplit.0 {
        assert fragmentSplit.0 == querySplit.0 + "?" + querySplit.1;
      }
    }
    assert '?' !in path && '#' !in path by {
      if querySplit.0 != path {
        assert querySplit.0 == path + ";" + paramsSplit.1;
      }
    }
    ParseResult(scheme, authority.0, path, paramsSplit.1, querySplit.1, fragmentSplit.1)
  }

  /** `urlparse(url)` as far as this model goes. */
  function Parse(url: string): (r: ParseResult)
    ensures forall k :: 0 <= k < |r.netloc| ==> r.netloc[k] !in NetlocDelimiters
    ensures '?' !in r.path && '#' !in r.path && '#' !in r.query
    ensures r.params != "" ==> r.scheme in UsesParams
  {
    var schemeSplit := SplitScheme(Sanitize(url));
    ParseHierarchy(schemeSplit.0, schemeSplit.1)
  }

  /** The text after "scheme:" of a well-formed URL. */
  function HierarchyText(u: ParseResult): (r: string)
  {
    "//" + u.netloc + u.path + Marked(';', u.params) + Marked('?', u.query) + Marked('#', u.fragment)
  }

  /** Text of the URL with the given components, absent parts left out. */
  function Compose(u: ParseResult): (r: string)
  {
    u.scheme + ":" + HierarchyText(u)
  }

  /** Free of the characters that end the authority. */
  predicate IsAuthority(s: string)
  {
    '/' !in s && '?' !in s && '#' !in s
  }

  /** The components of an absolute URL with an authority that `Parse`
      returns unchanged: a lower-case scheme, an authority free of '/', '?'
      and '#', a path that starts with '/' (or is empty) and carries no query
      or fragment, and `;params` only where the scheme admits them. */
  predicate WellFormed(u: ParseResult)
  {
    && |u.scheme| > 0 && IsAsciiLetter(u.scheme[0])
    && (forall k :: 0 <= k < |u.scheme| ==> IsSchemeChar(u.scheme[k]) && !IsUpperAscii(u.scheme[k]))
    && IsAuthority(u.netloc)
    && (u.path == "" || u.path[0] == '/')
    && '?' !in u.path && '#' !in u.path
    && (u.scheme in UsesParams ==> ';' !in u.path)
    && (u.params != "" ==> u.scheme in UsesParams && u.path != "" && IsAuthority(u.params))
    && '#' !in u.query
    && IsSafe(u.netloc) && IsSafe(u.path) && IsSafe(u.params) && IsSafe(u.query) && IsSafe(u.fragment)
  }

  lemma SplitSchemeOf(scheme: string, rest: string)
    requires |scheme| > 0 && IsAsciiLetter(scheme[0])
    requires forall k :: 0 <= k < |scheme| ==> IsSchemeChar(scheme[k]) && !IsUpperAscii(scheme[k])
    ensures SplitScheme(scheme + ":" + rest) == (scheme, rest)
  {
    var url := scheme + ":" + rest;
    assert ':' !in scheme by {
      forall k | 0 <= k < |scheme| ensures scheme[k] != ':' {
        assert IsSchemeChar(scheme[k]);
      }
    }
    CutAt(scheme, ':', rest);
    assert url[..|scheme|] == scheme;
    assert LowerAscii(scheme) == scheme;
  }

  lemma SplitNetlocOf(netloc: string, rest: string)
    requires IsAuthority(netloc)
    requires rest == "" || rest[0] in NetlocDelimiters
    ensures SplitNetloc("//" + netloc + rest) == (netloc, rest)
  {
    var url := "//" + netloc + rest;
    assert url[..2] == "//";
    var d := FindAnyFrom(url, NetlocDelimiters, 2);
    if rest == "" {
      assert d.None?;
      assert url[2..|url|] == netloc;
    } else {
      assert url[2 + |netloc|] in NetlocDelimiters;
      assert d == Some(2 + |netloc|);
      assert url[2..2 + |netloc|] == netloc;
      assert url[2 + |netloc|..] == rest;
    }
  }

  /** Splitting text at the separator `Marked` put there, or finding none. */
  lemma SplitAtOf(a: string, c: char, b: string)
    requires c !in a
    ensures SplitAt(a + Marked(c, b), c) == (a, b)
  {
    if b != "" {
      assert a + Marked(c, b) == a + [c] + b;
      CutAt(a, c, b);
    } else {
      assert a + Marked(c, b) == a;
    }
  }

  lemma SplitParamsOf(path: string, params: string)
    requires ';' !in path && '/' !in params && path != ""
    ensures SplitParams(path + ";" + params) == (path, params)
  {
    var s := path + ";" + params;
    assert s[|path|] == ';';
    if '/' in path {
      var slash := RFind(s, '/');
      assert slash.Some?;
      assert slash.value < |path| by {
        if slash.value >= |path| {
          assert false;
        }
      }
      var semi := FindAnyFrom(s, {';'}, slash.value);
      assert semi == Some(|path|) by {
        assert s[..|path|] == path;
      }
    } else {
      assert '/' !in s;
      CutAt(path, ';', params);
    }
    assert s[..|path|] == path;
    assert s[|path| + 1..] == params;
  }

  lemma ParamsOfOf(scheme: string, path: string, params: string)
    requires scheme in UsesParams ==> ';' !in path
    requires params != "" ==> scheme in UsesParams && path != "" && '/' !in params
    ensures ParamsOf(scheme, path + Marked(';', params)) == (path, params)
  {
    if params != "" {
      assert path + Marked(';', params) == path + ";" + params;
      SplitParamsOf(path, params);
    } else {
      assert path + Marked(';', params) == path;
    }
  }

  lemma ParseHierarchyOf(u: ParseResult)
    requires WellFormed(u)
    ensures ParseHierarchy(u.scheme, HierarchyText(u)) == u
  {
    var pathAndParams := u.path + Marked(';', u.params);
    var beforeFragment := pathAndParams + Marked('?', u.query);
    var afterNetloc := beforeFragment + Marked('#', u.fragment);
    assert HierarchyText(u) == "//" + u.netloc + afterNetloc;
    assert afterNetloc == "" || afterNetloc[0] in NetlocDelimiters by {
      if u.path == "" && u.params != "" {
        assert false;
      }
    }
    SplitNetlocOf(u.netloc, afterNetloc);
    assert SplitNetloc(HierarchyText(u)) == (u.netloc, afterNetloc);
    assert '#' !in beforeFragment;
    SplitAtOf(beforeFragment, '#', u.fragment);
    assert '?' !in pathAndParams;
    SplitAtOf(pathAndParams, '?', u.query);
    ParamsOfOf(u.scheme, u.path, u.params);
  }

  lemma HierarchySafe(u: ParseResult)
    requires IsSafe(u.netloc) && IsSafe(u.path) && IsSafe(u.params) && IsSafe(u.query) && IsSafe(u.fragment)
    ensures IsSafe(HierarchyText(u))
  {
    var a := "//" + u.netloc;
    assert IsSafe("//");
    var b := a + u.path;
    var c := b + Marked(';', u.params);
    var d := c + Marked('?', u.query);
    assert HierarchyText(u) == d + Marked('#', u.fragment);
  }

  /** `Parse` recovers every component of a well-formed URL from its text. */
  lemma {:induction false} ParseCompose(u: ParseResult)
    requires WellFormed(u)
    ensures Parse(Compose(u)) == u
  {
    var s := Compose(u);
    HierarchySafe(u);
    assert IsSafe(s);
    assert s[0] == u.scheme[0];
    assert Sanitize(s) == s;
    SplitSchemeOf(u.scheme, HierarchyText(u));
    ParseHierarchyOf(u);
  }

  /** A link that starts with a letter and holds no ':' (such as a bare host
      name followed by a path) has an empty netloc. */
  lemma SchemelessHasNoNetloc(url: string)
    requires |url| > 0 && IsAsciiLetter(url[0]) && ':' !in url
    ensures Parse(url).netloc == ""
  {
    var clean := Sanitize(url);
    var stripped := LStrip(url, C0ControlOrSpace);
    assert url[0] !in C0ControlOrSpace;
    assert stripped == url;
    assert clean == Remove(url, UnsafeChars);
    assert ':' !in clean by {
      RemoveKeeps(url, UnsafeChars, ':');
      assert multiset(url)[':'] == 0;
    }
    assert SplitScheme(clean) == ("", clean);
    assert clean[0] == url[0];
  }

  /** The empty string parses to no netloc. */
  lemma EmptyHasNoNetloc(url: string)
    requires |url| == 0
    ensures Parse(url).netloc == ""
  {
    assert |LStrip(url, C0ControlOrSpace)| == 0;
    assert |Sanitize(url)| == 0;
    assert SplitScheme(Sanitize(url)).1 == Sanitize(url);
    assert SplitNetloc(Sanitize(url)).0 == "";
  }
}
