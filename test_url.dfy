/** The test-URL builder of the endpoint test dialog: the page origin, one of
    the endpoint's path prefixes and an optional sub-path joined by exactly
    one `/`, with a query string in the prefix kept at the end. */
module TestUrl {
  import opened Types

  /** The prefix selected when the dialog opens: the first one, or the empty
      string when the endpoint has none. */
  function InitialPrefix(e: Endpoint): (r: string)
    ensures |e.pathPrefixes| > 0 ==> r == e.pathPrefixes[0]
    ensures |e.pathPrefixes| == 0 ==> r == ""
  {
    if |e.pathPrefixes| > 0 then e.pathPrefixes[0] else ""
  }

  /** The page origin followed by the selected prefix. */
  function BaseUrl(origin: string, prefix: string): string {
    origin + prefix
  }

  /** `s` without one trailing `/`, if it has one (`endsWith` and `slice`). */
  function DropTrailingSlash(s: string): (r: string)
    ensures s == r || s == r + "/"
    ensures s == r <==> (s == [] || s[|s| - 1] != '/')
  {
    if s != [] && s[|s| - 1] == '/' then s[..|s| - 1] else s
  }

  /** `s` without one leading `/`, if it has one (`startsWith` and `slice`). */
  function DropLeadingSlash(s: string): (r: string)
    ensures s == r || s == "/" + r
    ensures s == r <==> (s == [] || s[0] != '/')
  {
    if s != [] && s[0] == '/' then s[1..] else s
  }

  /** The pieces of `s` between occurrences of `sep`, as JavaScript's
      `split` with a one-character separator returns them. */
  function Split(s: string, sep: char): (parts: seq<string>)
    ensures |parts| >= 1
    ensures forall i :: 0 <= i < |parts| ==> sep !in parts[i]
    ensures |parts| == 1 <==> sep !in s
  {
    if s == [] then [""]
    else
      var rest := Split(s[1..], sep);
      if s[0] == sep then [""] + rest
      else [[s[0]] + rest[0]] + rest[1..]
  }

  /** The pieces joined back with `sep` between neighbours. */
  function Join(parts: seq<string>, sep: char): string
    requires |parts| >= 1
  {
    if |parts| == 1 then parts[0] else parts[0] + [sep] + Join(parts[1..], sep)
  }

  /** Splitting loses nothing: joining the pieces restores the text. */
  lemma {:induction false} JoinSplit(s: string, sep: char)
    ensures Join(Split(s, sep), sep) == s
  {
    if s != [] {
      var rest := Split(s[1..], sep);
      JoinSplit(s[1..], sep);
      if s[0] == sep {
        assert ([""] + rest)[1..] == rest;
      } else {
        var parts := [[s[0]] + rest[0]] + rest[1..];
        if |rest| > 1 {
          assert parts[1..] == rest[1..];
        }
        assert s == [s[0]] + s[1..];
      }
    }
  }

  /** Pieces free of `sep` come back unchanged from a join and a split. */
  lemma {:induction false} SplitJoin(parts: seq<string>, sep: char)
    requires |parts| >= 1
    requires forall i :: 0 <= i < |parts| ==> sep !in parts[i]
    ensures Split(Join(parts, sep), sep) == parts
  {
    if |parts| == 1 {
      SplitPiece(parts[0], sep);
    } else {
      var tail := Join(parts[1..], sep);
      SplitJoin(parts[1..], sep);
      SplitPieceThenSep(parts[0], tail, sep);
      assert parts == [parts[0]] + parts[1..];
    }
  }

  /** A text free of `sep` is a single piece. */
  lemma {:induction false} SplitPiece(p: string, sep: char)
    requires sep !in p
    ensures Split(p, sep) == [p]
  {
    if p != [] {
      SplitPiece(p[1..], sep);
      assert p == [p[0]] + p[1..];
    }
  }

  /** A piece free of `sep` followed by `sep` becomes the first piece. */
  lemma {:induction false} SplitPieceThenSep(p: string, t: string, sep: char)
    requires sep !in p
    ensures Split(p + [sep] + t, sep) == [p] + Split(t, sep)
  {
    if p == [] {
      assert p + [sep] + t == [sep] + t;
      assert ([sep] + t)[1..] == t;
    } else {
      assert (p + [sep] + t)[1..] == p[1..] + [sep] + t;
      SplitPieceThenSep(p[1..], t, sep);
      assert [p[0]] + p[1..] == p;
    }
  }

  /** The URL the dialog opens. One trailing `/` of the base and one leading
      `/` of the sub-path are dropped; an empty sub-path gives the base
      alone; otherwise the two are joined by `/`, and when the base holds a
      `?` the sub-path goes before it, followed by the text between the
      first and the second `?`. */
  function FinalUrl(origin: string, prefix: string, subPath: string): (r: string)
    ensures DropLeadingSlash(subPath) == "" ==> r == DropTrailingSlash(BaseUrl(origin, prefix))
  {
    var cleanedBase := DropTrailingSlash(BaseUrl(origin, prefix));
    var cleanedSubPath := DropLeadingSlash(subPath);
    if '?' in cleanedBase then
      var parts := Split(cleanedBase, '?');
      if cleanedSubPath == "" then cleanedBase
      else parts[0] + "/" + cleanedSubPath + "?" + parts[1]
    else if cleanedSubPath == "" then cleanedBase
    else cleanedBase + "/" + cleanedSubPath
  }

  /** Without a query, base and sub-path are joined by exactly one `/`,
      whether or not the prefix ends and the sub-path starts with one. */
  lemma JoinsWithOneSlash(origin: string, prefix: string, sub: string)
    requires '?' !in origin + prefix
    requires origin + prefix == [] || (origin + prefix)[|origin + prefix| - 1] != '/'
    requires sub != "" && sub[0] != '/'
    ensures FinalUrl(origin, prefix, sub) == origin + prefix + "/" + sub
    ensures FinalUrl(origin, prefix + "/", sub) == origin + prefix + "/" + sub
    ensures FinalUrl(origin, prefix, "/" + sub) == origin + prefix + "/" + sub
    ensures FinalUrl(origin, prefix + "/", "/" + sub) == origin + prefix + "/" + sub
  {
    var u := origin + prefix;
    assert BaseUrl(origin, prefix + "/") == u + "/";
    assert (u + "/")[..|u|] == u;
    assert '?' !in u + "/";
    assert ("/" + sub)[1..] == sub;
  }

  /** One trailing `/` on the prefix and one leading `/` on the sub-path do
      not change the URL. */
  lemma SlashesNormalised(origin: string, prefix: string, sub: string)
    requires origin + prefix == [] || (origin + prefix)[|origin + prefix| - 1] != '/'
    requires sub == [] || sub[0] != '/'
    ensures FinalUrl(origin, prefix + "/", sub) == FinalUrl(origin, prefix, sub)
    ensures FinalUrl(origin, prefix, "/" + sub) == FinalUrl(origin, prefix, sub)
    ensures FinalUrl(origin, prefix + "/", "/" + sub) == FinalUrl(origin, prefix, sub)
  {
    var u := origin + prefix;
    assert BaseUrl(origin, prefix + "/") == u + "/";
    assert (u + "/")[..|u|] == u;
    assert ("/" + sub)[1..] == sub;
  }

  /** A query string in the prefix stays at the end: the sub-path is placed
      before the `?`, and the query after it, whether or not the prefix ends
      and the sub-path starts with a `/`. */
  lemma KeepsQuery(origin: string, path: string, query: string, sub: string)
    requires '?' !in origin + path && '?' !in query
    requires query == [] || query[|query| - 1] != '/'
    requires sub != "" && sub[0] != '/'
    ensures FinalUrl(origin, path + "?" + query, sub) == origin + path + "/" + sub + "?" + query
    ensures FinalUrl(origin, path + "?" + query + "/", sub) == origin + path + "/" + sub + "?" + query
    ensures FinalUrl(origin, path + "?" + query, "/" + sub) == origin + path + "/" + sub + "?" + query
    ensures FinalUrl(origin, path + "?" + query + "/", "/" + sub) == origin + path + "/" + sub + "?" + query
  {
    var base := BaseUrl(origin, path + "?" + query);
    assert base == Join([origin + path, query], '?');
    SplitJoin([origin + path, query], '?');
    assert '?' in base by {
      assert base[|origin + path|] == '?';
    }
    assert DropTrailingSlash(base) == base;
    SlashesNormalised(origin, path + "?" + query, sub);
  }

  /** Everything after a second `?` is lost: only the text between the
      first and the second `?` is kept as the query, whether or not the
      prefix ends and the sub-path starts with a `/`. */
  lemma DropsAfterSecondQuestionMark(origin: string, path: string, query: string, rest: string, sub: string)
    requires '?' !in origin + path && '?' !in query
    requires rest == [] || rest[|rest| - 1] != '/'
    requires sub != "" && sub[0] != '/'
    ensures FinalUrl(origin, path + "?" + query + "?" + rest, sub)
         == origin + path + "/" + sub + "?" + query
    ensures FinalUrl(origin, path + "?" + query + "?" + rest + "/", sub)
         == origin + path + "/" + sub + "?" + query
    ensures FinalUrl(origin, path + "?" + query + "?" + rest, "/" + sub)
         == origin + path + "/" + sub + "?" + query
    ensures FinalUrl(origin, path + "?" + query + "?" + rest + "/", "/" + sub)
         == origin + path + "/" + sub + "?" + query
  {
    var base := BaseUrl(origin, path + "?" + query + "?" + rest);
    assert base == (origin + path) + ['?'] + (query + ['?'] + rest);
    SplitPieceThenSep(origin + path, query + ['?'] + rest, '?');
    SplitPieceThenSep(query, rest, '?');
    assert '?' in base by {
      assert base[|origin + path|] == '?';
    }
    assert DropTrailingSlash(base) == base;
    SlashesNormalised(origin, path + "?" + query + "?" + rest, sub);
  }
}
