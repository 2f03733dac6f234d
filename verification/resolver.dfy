/** The URL resolver `get_video_id` (app.py): the video identifier named by a
    watch-page URL's `v` parameter or by a short link's path. */
module Resolver {
  import opened Wrappers
  import opened Text
  import opened UrlParse
  import opened QueryString

  /** The long-form hosts, matched exactly. */
  const LongFormHosts: set<string> := {"www.youtube.com", "youtube.com"}

  /** The short-link host, matched exactly. */
  const ShortLinkHost: string := "youtu.be"

  /** `id` is what a short link with this path names: the path without its
      leading slashes. */
  predicate IsShortLinkId(path: string, id: string)
  {
    |id| <= |path| && id == path[|path| - |id|..]
    && (forall k :: 0 <= k < |path| - |id| ==> path[k] == '/')
    && (id == [] || id[0] != '/')
  }

  lemma SuffixExcludes(s: string, suffix: string, c: char)
    requires |suffix| <= |s| && suffix == s[|s| - |suffix|..] && c !in s
    ensures c !in suffix
  {
  }

  /** The identifier a parsed URL names. The long-form hosts answer with
      the first non-blank `v` value of the query; the short-link host answers
      with its path; every other netloc (another host, a sub-domain, a port,
      other letter case, or none at all) answers None. */
  function Resolve(u: ParseResult): (r: Option<string>)
    ensures r.Some? ==> u.netloc in LongFormHosts || u.netloc == ShortLinkHost
    ensures u.netloc in LongFormHosts ==>
      && (r.None? <==> FirstCarrier(Split(u.query, '&'), "v").None?)
      && (r.Some? ==> r.value != "" && r.value == FieldValue(Split(u.query, '&')[FirstCarrier(Split(u.query, '&'), "v").value]))
    ensures u.netloc == ShortLinkHost ==> r.Some? && IsShortLinkId(u.path, r.value)
  {
    if u.netloc in LongFormHosts then
      var id := GetFirst(u.query, "v");
      ghost var fields := Split(u.query, '&');
      assert id.Some? ==> id.value != "" by {
        if id.Some? {
          CarriedValueNonEmpty(fields[FirstCarrier(fields, "v").value], "v");
        }
      }
      id
    else if u.netloc == ShortLinkHost then
      Some(LStrip(u.path, {'/'}))
    else None
  }

  /** `get_video_id(url)`: `url` parsed, then resolved by its netloc, which
      must equal one of the three hosts exactly. */
  function GetVideoId(url: string): (r: Option<string>)
    ensures r.Some? ==> Parse(url).netloc in LongFormHosts || Parse(url).netloc == ShortLinkHost
  {
    Resolve(Parse(url))
  }

  /** A link written from well-formed components resolves as those
      components do: the properties of `Resolve` below carry over to the link
      text. */
  lemma ComposedLinkResolves(u: ParseResult)
    requires WellFormed(u)
    ensures GetVideoId(Compose(u)) == Resolve(u)
  {
    ParseCompose(u);
  }

  /** A short link always resolves, to its path without the leading slashes;
      as `Parse` keeps '?' and '#' out of the path, the identifier never holds
      the query or the fragment. */
  lemma ShortLinkId(u: ParseResult)
    requires u.netloc == ShortLinkHost && '?' !in u.path && '#' !in u.path
    ensures Resolve(u).Some? && IsShortLinkId(u.path, Resolve(u).value)
    ensures '?' !in Resolve(u).value && '#' !in Resolve(u).value
  {
    var id := Resolve(u).value;
    SuffixExcludes(u.path, id, '?');
    SuffixExcludes(u.path, id, '#');
  }

  /** A short link with path `/X`, X not starting with '/', names X; in
      particular `https://youtu.be/` names the empty identifier. */
  lemma ShortLinkSlashX(u: ParseResult, x: string)
    requires u.netloc == ShortLinkHost
    requires u.path == "/" + x && (x == "" || x[0] != '/')
    ensures Resolve(u) == Some(x)
  {
    SlashPrefixOnly(x, Resolve(u).value);
  }

  lemma SlashPrefixOnly(x: string, id: string)
    requires x == "" || x[0] != '/'
    requires IsShortLinkId("/" + x, id)
    ensures id == x
  {
    var path := "/" + x;
    assert path[1..] == x;
  }

  /** A long-form host resolves to a non-empty identifier or to None. */
  lemma LongFormIdNonEmpty(u: ParseResult)
    requires u.netloc in LongFormHosts
    ensures Resolve(u).Some? ==> Resolve(u).value != ""
  {
  }

  /** `v=X` with a non-empty X as the first field of a long-form query
      yields X (decoded), whatever fields follow, including later `v`s. */
  lemma LongFormFirstV(u: ParseResult, x: string, tail: string)
    requires u.netloc in LongFormHosts
    requires x != "" && '&' !in x
    requires tail == "" || tail[0] == '&'
    requires u.query == "v=" + x + tail
    ensures Resolve(u) == Some(Unquote(x))
  {
    QueryOpensWith(u.query, x, tail);
  }

  lemma QueryOpensWith(q: string, x: string, tail: string)
    requires x != "" && '&' !in x
    requires tail == "" || tail[0] == '&'
    requires q == "v=" + x + tail
    ensures GetFirst(q, "v") == Some(Unquote(x))
  {
    assert q == "v" + "=" + x + tail;
    LeadingField("v", x, tail);
  }

  /** A long-form query with no `v` field with a value, including one whose
      only `v` is blank (`v=`), resolves to None. */
  lemma LongFormWithoutV(u: ParseResult)
    requires u.netloc in LongFormHosts
    requires forall i :: 0 <= i < |Split(u.query, '&')| ==> !Carries(Split(u.query, '&')[i], "v")
    ensures Resolve(u) == None
  {
    assert FirstCarrier(Split(u.query, '&'), "v").None?;
  }

  /** A link that starts with a letter and holds no ':', such as
      `youtube.com/watch?v=...`, has no netloc and so resolves to None. (A
      scheme-relative link such as `//youtu.be/abc` does have a netloc.) */
  lemma SchemelessUnresolved(url: string)
    requires |url| > 0 && IsAsciiLetter(url[0]) && ':' !in url
    ensures GetVideoId(url) == None
  {
    SchemelessHasNoNetloc(url);
    NoNetlocUnresolved(url);
  }

  /** Any other netloc (another host, a sub-domain, a port, other letter
      case) resolves to None. */
  lemma OtherHostResolvesNone(u: ParseResult)
    requires u.netloc !in LongFormHosts && u.netloc != ShortLinkHost
    ensures Resolve(u) == None
  {
  }

  /** The empty netloc is none of the three hosts. */
  lemma EmptyIsNoHost()
    ensures "" !in LongFormHosts && "" != ShortLinkHost
  {
  }

  /** A link that parses without a netloc resolves to None. */
  lemma NoNetlocUnresolved(url: string)
    requires Parse(url).netloc == ""
    ensures GetVideoId(url) == None
  {
    var u := Parse(url);
    EmptyIsNoHost();
    OtherHostResolvesNone(u);
  }
}
