/** URL construction of the inventory client (client/inventory/client.go):
    `joinURL`, and the tenant substitution `GetDevices` performs on the
    search endpoint before issuing its request. */
module InventoryClient {
  import opened GoStrings

  const PathHead := "api/internal/v2/inventory/tenants/"
  const TidParam := ":tid"
  const PathTail := "/filters/search"

  /** `urlSearch`: "/api/internal/v2/inventory/tenants/:tid/filters/search". */
  const UrlSearch := "/" + PathHead + TidParam + PathTail

  /** `base` with a trailing slash, added only when missing. */
  function WithSlash(base: string): (b: string)
    ensures HasSuffix(b, "/")
    ensures HasPrefix(b, base)
    ensures |b| == |base| + (if HasSuffix(base, "/") then 0 else 1)
  {
    if HasSuffix(base, "/") then base else base + "/"
  }

  /** `joinURL`: `base` joined to `url` with exactly one slash added at the
      seam when `base` lacks one, and at most one leading slash of `url`
      dropped. */
  function JoinURL(base: string, url: string): (r: string)
    ensures HasPrefix(r, base)
    ensures |r| == |base| + (if HasSuffix(base, "/") then 0 else 1) + |url| - (if HasPrefix(url, "/") then 1 else 0)
    ensures !HasSuffix(base, "/") ==> r[|base|] == '/'
    ensures r[|WithSlash(base)|..] == TrimPrefix(url, "/")
  {
    var b := WithSlash(base);
    var u := TrimPrefix(url, "/");
    assert (b + u)[|b|..] == u;
    b + u
  }

  /** A leading slash on the path makes no difference, and neither does a
      trailing slash on the base: the seam always holds one slash. */
  lemma {:induction false} JoinURLSeam(base: string, url: string)
    requires !HasPrefix(url, "/") && !HasSuffix(base, "/")
    ensures JoinURL(base, "/" + url) == JoinURL(base, url)
    ensures JoinURL(base + "/", url) == JoinURL(base, url)
    ensures JoinURL(base + "/", "/" + url) == JoinURL(base, url)
  {
    assert HasPrefix("/" + url, "/");
    assert ("/" + url)[1..] == url;
    assert HasSuffix(base + "/", "/");
  }

  /** Only ONE leading slash is dropped: `//x` keeps one. */
  lemma DoubleSlashKept()
    ensures JoinURL("http://h", "//x") == "http://h//x"
  {
    assert !HasSuffix("http://h", "/");
    assert HasPrefix("//x", "/");
    assert "//x"[1..] == "/x";
  }

  /** The URL `GetDevices` posts to: `strings.Replace(joinURL(base,
      urlSearch), ":tid", tid, 1)`. */
  function SearchURL(base: string, tid: string): string {
    ReplaceOnce(JoinURL(base, UrlSearch), TidParam, tid)
  }

  lemma SearchPathSplit()
    ensures TrimPrefix(UrlSearch, "/") == PathHead + TidParam + PathTail
    ensures |PathHead| == 34
    ensures ':' !in PathHead
  {
    assert UrlSearch[..1] == "/";
    assert UrlSearch[1..] == PathHead + TidParam + PathTail;
  }

  /** No occurrence of `pat` starts inside `WithSlash(base)` when `base`
      holds none and `pat` has no slash: one crossing the seam would have to
      contain the slash. */
  lemma NoOccurrenceInBase(base: string, rest: string, pat: string)
    requires !Contains(base, pat) && '/' !in pat
    ensures forall j :: 0 <= j < |WithSlash(base)| ==> !OccursAt(WithSlash(base) + rest, j, pat)
  {
    var b := WithSlash(base);
    var s := b + rest;
    var n := |b|;
    var m := |pat|;
    assert b[n - 1] == '/';
    forall j | 0 <= j < n
      ensures !OccursAt(s, j, pat)
    {
      if j + m <= n - 1 {
        assert s[j..j + m] == base[j..j + m];
        assert !OccursAt(base, j, pat);
      } else if j + m <= |s| {
        assert s[j..j + m][n - 1 - j] == s[n - 1];
      }
    }
  }

  /** With no occurrence of `pat` in `base` and none starting in `head`, the
      leftmost occurrence in `WithSlash(base) + head + pat + tail` is the
      `pat` between `head` and `tail`. */
  lemma PathOccurrenceFirst(base: string, head: string, pat: string, tail: string)
    requires |pat| > 0 && '/' !in pat && pat[0] !in head
    requires !Contains(base, pat)
    ensures FirstAt(WithSlash(base) + head + pat + tail, |WithSlash(base)| + |head|, pat)
  {
    var b := WithSlash(base);
    var s := b + head + pat + tail;
    NoOccurrenceInBase(base, head + pat + tail, pat);
    assert s == b + (head + pat + tail);
    var at := |b| + |head|;
    assert s[at..at + |pat|] == pat;
    forall j | |b| <= j < at
      ensures !OccursAt(s, j, pat)
    {
      assert s[j] == head[j - |b|];
    }
  }

  /** The substitution on `WithSlash(base) + head + pat + tail`, with no
      occurrence of `pat` in `base` and none starting in `head`, replaces
      the `pat` between `head` and `tail`. */
  lemma ReplaceInPath(base: string, head: string, pat: string, tail: string, rep: string)
    requires |pat| > 0 && '/' !in pat && pat[0] !in head
    requires !Contains(base, pat)
    ensures ReplaceOnce(WithSlash(base) + head + pat + tail, pat, rep) == WithSlash(base) + head + rep + tail
  {
    var s := WithSlash(base) + head + pat + tail;
    var at := |WithSlash(base)| + |head|;
    PathOccurrenceFirst(base, head, pat, tail);
    ReplaceOnceLeftmost(s, pat, rep);
    assert s[..at] == WithSlash(base) + head;
    assert s[at + |pat|..] == tail;
  }

  /** With no `:tid` in the base, the tenant lands in the path:
      `base/api/internal/v2/inventory/tenants/<tid>/filters/search`. */
  lemma SearchURLPlainBase(base: string, tid: string)
    requires !Contains(base, TidParam)
    ensures SearchURL(base, tid) == WithSlash(base) + PathHead + tid + PathTail
  {
    SearchPathSplit();
    assert JoinURL(base, UrlSearch) == WithSlash(base) + PathHead + TidParam + PathTail;
    ReplaceInPath(base, PathHead, TidParam, PathTail, tid);
  }

  /** The leftmost occurrence in a prefix is the leftmost in the whole. */
  lemma FirstInPrefix(base: string, s: string, pat: string, i: int)
    requires FirstAt(base, i, pat) && HasPrefix(s, base)
    ensures FirstAt(s, i, pat)
  {
    assert s[..|base|] == base;
    assert s[i..i + |pat|] == base[i..i + |pat|];
    forall j | 0 <= j < i
      ensures !OccursAt(s, j, pat)
    {
      assert j + |pat| <= |base|;
      forall k | j <= k < j + |pat|
        ensures s[k] == base[k]
      {
        assert s[..|base|][k] == s[k];
      }
      assert s[j..j + |pat|] == base[j..j + |pat|];
      assert !OccursAt(base, j, pat);
    }
  }

  /** Substituting at the leftmost occurrence inside a prefix leaves the
      rest of the string, later occurrences included, as it is. */
  lemma ReplaceInFront(b: string, rest: string, pat: string, rep: string, i: int)
    requires FirstAt(b, i, pat)
    ensures ReplaceOnce(b + rest, pat, rep) == b[..i] + rep + b[i + |pat|..] + rest
  {
    var s := b + rest;
    assert s[..|b|] == b;
    FirstInPrefix(b, s, pat, i);
    ReplaceOnceLeftmost(s, pat, rep);
    assert s[..i] == b[..i];
    assert s[i + |pat|..] == b[i + |pat|..] + rest;
  }

  /** The same for the base with its slash appended, ahead of the path. */
  lemma ReplaceInPrefix(base: string, rest: string, pat: string, rep: string, i: int)
    requires FirstAt(WithSlash(base), i, pat)
    ensures ReplaceOnce(WithSlash(base) + rest, pat, rep) == WithSlash(base)[..i] + rep + WithSlash(base)[i + |pat|..] + rest
  {
    ReplaceInFront(WithSlash(base), rest, pat, rep, i);
  }

  /** With a `:tid` in the base, its leftmost occurrence is substituted and
      the path, with its own `:tid`, is left as it is. */
  lemma SearchURLParamInBase(base: string, tid: string, i: int)
    requires FirstAt(base, i, TidParam)
    ensures SearchURL(base, tid) == base[..i] + tid + WithSlash(base)[i + 4..] + PathHead + TidParam + PathTail
  {
    var b := WithSlash(base);
    SearchPathSplit();
    assert JoinURL(base, UrlSearch) == b + (PathHead + TidParam + PathTail);
    FirstInPrefix(base, b, TidParam, i);
    ReplaceInPrefix(base, PathHead + TidParam + PathTail, TidParam, tid, i);
    assert b[..i] == base[..i];
  }

  /** For base `http://h` the search endpoint is
      `http://h/api/internal/v2/inventory/tenants/<tid>/filters/search`. */
  lemma SearchURLExample(tid: string)
    ensures SearchURL("http://h", tid) == "http://h" + "/" + PathHead + tid + PathTail
  {
    NoParamInExampleBase();
    SearchURLPlainBase("http://h", tid);
    assert !HasSuffix("http://h", "/");
  }

  lemma NoParamInExampleBase()
    ensures !Contains("http://h", TidParam)
  {
    var base := "http://h";
    forall i | 0 <= i <= |base|
      ensures !OccursAt(base, i, TidParam)
    {
      if i + 4 <= |base| {
        var w := base[i..i + 4];
        if i == 4 {
          assert w[1] == '/';
        } else {
          assert w[0] == base[i] != ':';
        }
      }
    }
  }
}
