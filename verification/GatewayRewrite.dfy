/** Rewriting the request path of a matched public gateway route. */
module GatewayRewrite {
  import opened Text
  import opened GatewayPolicy

  function JoinGatewayPath(prefix: string, suffix: string): string {
    var p := Effective(prefix);
    if suffix == "" then p else TrimRight(p, '/') + "/" + TrimLeft(suffix, '/')
  }

  /** Whether the rewrite leaves the request alone: the path does not literally start with the prefix. */
  predicate Skips(path: string, matchedPrefix: string) {
    var prefix := Effective(matchedPrefix);
    prefix != "/" && path != prefix && TrimPrefix(path, prefix) == path
  }

  function Rewritten(path: string, matchedPrefix: string, rewritePrefix: string): string {
    if Skips(path, matchedPrefix) then path
    else JoinGatewayPath(rewritePrefix, TrimPrefix(path, Effective(matchedPrefix)))
  }

  class Request {
    var path: string
    var rawPath: string

    constructor (path: string, rawPath: string)
      ensures this.path == path && this.rawPath == rawPath
    {
      this.path, this.rawPath := path, rawPath;
    }

    method RewritePath(matchedPrefix: string, rewritePrefix: string)
      modifies this
      ensures path == Rewritten(old(path), matchedPrefix, rewritePrefix)
      ensures rawPath == if Skips(old(path), matchedPrefix) then old(rawPath) else ""
    {
      var prefix := if matchedPrefix == "" then "/" else matchedPrefix;
      var suffix := TrimPrefix(path, prefix);
      if prefix != "/" && path != prefix && suffix == path {
        return;
      }
      path := JoinGatewayPath(rewritePrefix, suffix);
      rawPath := "";
    }
  }

  // ---------- What rewriting means ----------

  function DropEmpty(parts: seq<string>): seq<string> {
    if parts == [] then [] else (if parts[0] == "" then [] else [parts[0]]) + DropEmpty(parts[1..])
  }

  /** The path elements of a text: its segments without the empty ones. */
  function Elements(s: string): seq<string> {
    DropEmpty(Segments(s))
  }

  lemma {:induction false} DropEmptyConcat(a: seq<string>, b: seq<string>)
    ensures DropEmpty(a + b) == DropEmpty(a) + DropEmpty(b)
  {
    if a == [] {
      assert a + b == b;
    } else {
      assert (a + b)[0] == a[0] && (a + b)[1..] == a[1..] + b;
      DropEmptyConcat(a[1..], b);
    }
  }

  lemma ElementsConcat(a: string, b: string)
    ensures Elements(a + "/" + b) == Elements(a) + Elements(b)
  {
    hide Split;
    assert a + "/" + b == a + ['/'] + b;
    SplitConcat(a, b, '/');
    DropEmptyConcat(Segments(a), Segments(b));
  }

  lemma ElementsEmpty()
    ensures Elements("") == []
  {
    assert Segments("") == [""];
    assert DropEmpty([""]) == [] + DropEmpty([""][1..]);
  }

  /** Slashes at either end change no element. */
  lemma SlashAtEnds(s: string)
    ensures Elements(s + "/") == Elements(s) && Elements("/" + s) == Elements(s)
  {
    hide Elements;
    ElementsEmpty();
    ElementsConcat(s, "");
    ElementsConcat("", s);
    assert s + "/" + "" == s + "/" && "" + "/" + s == "/" + s;
  }

  lemma {:induction false} ElementsTrimRight(s: string)
    ensures Elements(TrimRight(s, '/')) == Elements(s)
  {
    hide Elements;
    if s != "" && s[|s| - 1] == '/' {
      ElementsTrimRight(s[..|s| - 1]);
      SlashAtEnds(s[..|s| - 1]);
      assert s[..|s| - 1] + "/" == s;
    }
  }

  lemma {:induction false} ElementsTrimLeft(s: string)
    ensures Elements(TrimLeft(s, '/')) == Elements(s)
  {
    hide Elements;
    if s != "" && s[0] == '/' {
      ElementsTrimLeft(s[1..]);
      SlashAtEnds(s[1..]);
      assert "/" + s[1..] == s;
    }
  }

  /** Joining two paths puts the elements of the second after those of the first, however they meet. */
  lemma JoinIsConcat(prefix: string, suffix: string)
    ensures Elements(JoinGatewayPath(prefix, suffix)) == Elements(prefix) + Elements(suffix)
  {
    hide Elements;
    var p := Effective(prefix);
    ElementsEmpty();
    SlashAtEnds("");
    assert "" + "/" == "/";
    ElementsTrimRight(p);
    ElementsTrimLeft(suffix);
    ElementsConcat(TrimRight(p, '/'), TrimLeft(suffix, '/'));
  }

  /** A path that continues a text at a slash has the text's elements first. */
  lemma ElementsContinue(p: string, suffix: string)
    requires suffix == "" || suffix[0] == '/' || (p != "" && p[|p| - 1] == '/')
    ensures Elements(p + suffix) == Elements(p) + Elements(suffix)
  {
    hide Elements;
    ElementsEmpty();
    if suffix == "" {
      assert p + suffix == p;
    } else if suffix[0] == '/' {
      assert p + suffix == p + "/" + suffix[1..] && suffix == "/" + suffix[1..];
      ElementsConcat(p, suffix[1..]);
      SlashAtEnds(suffix[1..]);
    } else {
      var p' := p[..|p| - 1];
      assert p + suffix == p' + "/" + suffix && p == p' + "/";
      ElementsConcat(p', suffix);
      SlashAtEnds(p');
    }
  }

  /** A matched path has the prefix's elements first. */
  lemma MatchedElements(path: string, prefix: string)
    requires PathMatchesPrefix(path, prefix) && prefix != ""
    ensures Elements(prefix) <= Elements(path)
    ensures prefix <= path ==> Elements(path) == Elements(prefix) + Elements(path[|prefix|..])
  {
    hide Elements;
    var q := TrimRight(prefix, '/');
    ElementsTrimRight(prefix);
    ElementsEmpty();
    SlashAtEnds("");
    assert "" + "/" == "/";
    if q + "/" <= path {
      var rest := path[|q|..];
      assert path == q + rest && rest[0] == '/';
      ElementsContinue(q, rest);
    }
    if prefix <= path {
      var rest := path[|prefix|..];
      assert path == prefix + rest;
      if prefix == q && path != prefix {
        assert q + "/" <= path;
        assert rest[0] == path[|q|];
      } else if prefix != q {
        TrimmedSlash(prefix);
        assert prefix[|prefix| - 1] == '/';
      }
      ElementsContinue(prefix, rest);
    }
  }

  /** The elements the path has after the matched prefix. */
  function Remainder(path: string, prefix: string): seq<string>
    requires Elements(prefix) <= Elements(path)
  {
    Elements(path)[|Elements(prefix)|..]
  }

  /**
    For every path a prefix matches, one rewrite gives the rewrite prefix's elements followed by
    those left after the matched prefix, for all slash placements, if and only if the path starts
    with the prefix as written, or the prefix is the root, or rewriting would change nothing.
   */
  lemma RewriteMeaning(path: string, matchedPrefix: string, rewritePrefix: string)
    requires PathMatchesPrefix(path, Effective(matchedPrefix))
    ensures var prefix := Effective(matchedPrefix);
            && Elements(prefix) <= Elements(path)
            && (Elements(Rewritten(path, matchedPrefix, rewritePrefix)) == Elements(rewritePrefix) + Remainder(path, prefix)
                <==> prefix <= path || prefix == "/" || Elements(rewritePrefix) == Elements(prefix))
  {
    hide Elements, PathMatchesPrefix, JoinGatewayPath;
    var prefix := Effective(matchedPrefix);
    MatchedElements(path, prefix);
    JoinIsConcat(rewritePrefix, TrimPrefix(path, prefix));
    if prefix <= path {
      assert !Skips(path, matchedPrefix);
    } else if prefix == "/" {
      ElementsEmpty();
      SlashAtEnds("");
      assert "" + "/" == "/";
    } else {
      assert Rewritten(path, matchedPrefix, rewritePrefix) == path;
      SameTail(Elements(prefix), Elements(rewritePrefix), Remainder(path, prefix));
      assert Elements(path) == Elements(prefix) + Remainder(path, prefix);
    }
  }

  lemma SameTail(a: seq<string>, b: seq<string>, rest: seq<string>)
    ensures a + rest == b + rest <==> a == b
  {
    if a + rest == b + rest {
      assert |a| == |b|;
      assert a == (a + rest)[..|a|] && b == (b + rest)[..|b|];
    }
  }

  /** In particular for every prefix that does not end with a slash. */
  lemma NormalizedRewriteMeaning(path: string, prefix: string, rewritePrefix: string)
    requires Normalized(prefix) && PathMatchesPrefix(path, prefix)
    ensures Elements(prefix) <= Elements(path)
    ensures Elements(Rewritten(path, prefix, rewritePrefix)) == Elements(rewritePrefix) + Remainder(path, prefix)
  {
    hide Elements, Rewritten;
    RewriteMeaning(path, prefix, rewritePrefix);
    if prefix != "/" {
      NormalizedMatchIsPrefix(path, prefix);
    }
  }

  /** What joining yields: a prefix alone as it is; otherwise all segments, empty ones included, on both sides of one slash. */
  lemma JoinSegments(prefix: string, suffix: string)
    ensures suffix == "" ==> JoinGatewayPath(prefix, suffix) == Effective(prefix)
    ensures suffix != "" ==>
              Segments(JoinGatewayPath(prefix, suffix)) == PrefixSegments(Effective(prefix)) + Segments(TrimLeft(suffix, '/'))
  {
    hide Split, TrimLeft, TrimRight;
    if suffix != "" {
      var a, b := TrimRight(Effective(prefix), '/'), TrimLeft(suffix, '/');
      assert JoinGatewayPath(prefix, suffix) == a + "/" + b == a + ['/'] + b;
      SplitConcat(a, b, '/');
    }
  }

  /** When the rewrite applies, and to what. */
  lemma RewriteApplies(path: string, matchedPrefix: string)
    ensures var prefix := Effective(matchedPrefix);
            && (Skips(path, matchedPrefix) <==> !(prefix <= path) && prefix != "/")
            && TrimPrefix(path, prefix) == if prefix <= path then path[|prefix|..] else path
  {
  }

  /**
    The rewritten path to the letter. What follows the prefix (all of the path, for the root prefix
    of a path without a leading slash) loses its leading slashes and is appended, empty segments
    included, to the segments of the rewrite prefix without trailing slashes. With nothing left the
    path is the rewrite prefix itself; and a path that does not start with the prefix is kept.
   */
  lemma RewriteSegments(path: string, matchedPrefix: string, rewritePrefix: string)
    ensures var prefix, to := Effective(matchedPrefix), Effective(rewritePrefix);
            var rest := if prefix <= path then path[|prefix|..] else path;
            var out := Rewritten(path, matchedPrefix, rewritePrefix);
            if !(prefix <= path) && prefix != "/" then out == path
            else if rest == "" then out == to
            else Segments(out) == PrefixSegments(to) + Segments(TrimLeft(rest, '/'))
  {
    hide Segments, PrefixSegments, TrimLeft, JoinGatewayPath, Skips, TrimPrefix;
    RewriteApplies(path, matchedPrefix);
    JoinSegments(rewritePrefix, TrimPrefix(path, Effective(matchedPrefix)));
  }

  /** A rewrite never makes an absolute path relative. */
  lemma RewriteStaysAbsolute(path: string, matchedPrefix: string, rewritePrefix: string)
    requires "/" <= path && (rewritePrefix == "" || "/" <= rewritePrefix)
    ensures "/" <= Rewritten(path, matchedPrefix, rewritePrefix)
  {
    hide Skips;
    var p := Effective(rewritePrefix);
    var trimmed := TrimRight(p, '/');
    assert trimmed == "" || trimmed[0] == p[0];
  }

  /** A doubled trailing slash matches a path it does not literally start, and that path is not rewritten. */
  lemma DoubledSlashIsNotRewritten(rewritePrefix: string)
    ensures PathMatchesPrefix("/a/b", "/a//") && Rewritten("/a/b", "/a//", rewritePrefix) == "/a/b"
  {
    assert "/a//"[..3] == "/a/" && "/a/"[..2] == "/a";
    assert TrimRight("/a/", '/') == TrimRight("/a", '/') == "/a";
    assert "/a" + "/" == "/a/b"[..3];
    assert "/a/b"[3] != "/a//"[3];
  }
}
