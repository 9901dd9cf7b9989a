/** The LINQ queries and collection operations the window runs over its repository
    list: `Any` and `FirstOrDefault` on URLs compared ignoring case, and
    `Collection<T>.Remove`, which deletes the first occurrence of an item. The
    functions only compute; the lemmas after them say what they promise. */
module Lookup {
  import opened Wrappers
  import opened Strings

  /** `Any(r => r.Url.Equals(url, OrdinalIgnoreCase))` over the list of URLs. */
  predicate ContainsUrl(urls: seq<string>, url: string) {
    urls != [] && (EqualsIgnoreCase(urls[0], url) || ContainsUrl(urls[1..], url))
  }

  /** `Any` holds exactly when some listed URL equals `url` ignoring case. */
  lemma {:induction false} ContainsUrlIffSomeMatch(urls: seq<string>, url: string)
    ensures ContainsUrl(urls, url) <==> exists k :: 0 <= k < |urls| && EqualsIgnoreCase(urls[k], url)
  {
    if urls != [] {
      ContainsUrlIffSomeMatch(urls[1..], url);
      if !EqualsIgnoreCase(urls[0], url) && ContainsUrl(urls, url) {
        var k :| 0 <= k < |urls[1..]| && EqualsIgnoreCase(urls[1..][k], url);
        assert urls[k + 1] == urls[1..][k];
      }
      if exists k :: 0 <= k < |urls| && EqualsIgnoreCase(urls[k], url) {
        var k :| 0 <= k < |urls| && EqualsIgnoreCase(urls[k], url);
        if k > 0 {
          assert urls[1..][k - 1] == urls[k];
        }
      }
    }
  }

  /** `FirstOrDefault(r => r.Url.Equals(url, OrdinalIgnoreCase))`, as an index. */
  function IndexOfUrl(urls: seq<string>, url: string): (r: Option<nat>)
    ensures r.Some? ==> r.value < |urls|
  {
    if urls == [] then None
    else if EqualsIgnoreCase(urls[0], url) then Some(0)
    else
      match IndexOfUrl(urls[1..], url)
      case None => None
      case Some(i) => Some(i + 1)
  }

  /** The lookup finds the first position whose URL matches, with no match before it,
      and `None` only when no URL matches. */
  lemma {:induction false} IndexOfUrlIsFirstMatch(urls: seq<string>, url: string)
    ensures var r := IndexOfUrl(urls, url);
      && (r.Some? ==> EqualsIgnoreCase(urls[r.value], url))
      && forall k :: 0 <= k < (if r.Some? then r.value else |urls|) ==> !EqualsIgnoreCase(urls[k], url)
  {
    if urls != [] && !EqualsIgnoreCase(urls[0], url) {
      var t := urls[1..];
      IndexOfUrlIsFirstMatch(t, url);
      var r := IndexOfUrl(urls, url);
      forall k | 0 <= k < (if r.Some? then r.value else |urls|) ensures !EqualsIgnoreCase(urls[k], url) {
        if k > 0 {
          assert urls[k] == t[k - 1];
        }
      }
    }
  }

  /** The duplicate check of Add and the lookup of Clone agree: a URL is listed
      exactly when the lookup finds it. */
  lemma {:induction false} ContainsIffIndexOfUrl(urls: seq<string>, url: string)
    ensures ContainsUrl(urls, url) <==> IndexOfUrl(urls, url).Some?
  {
    if urls != [] && !EqualsIgnoreCase(urls[0], url) {
      ContainsIffIndexOfUrl(urls[1..], url);
    }
  }

  /** No listed URL is empty, so the lookup of an empty text finds nothing. */
  lemma {:induction false} EmptyUrlNeverFound(urls: seq<string>)
    requires forall k :: 0 <= k < |urls| ==> urls[k] != ""
    ensures IndexOfUrl(urls, "") == None
  {
    if urls != [] {
      assert !EqualsIgnoreCase(urls[0], "");
      assert forall k :: 0 <= k < |urls[1..]| ==> urls[1..][k] == urls[k + 1];
      EmptyUrlNeverFound(urls[1..]);
    }
  }

  /** A URL just appended is listed, so adding it a second time is refused. */
  lemma {:induction false} AppendedUrlIsListed(urls: seq<string>, url: string)
    ensures ContainsUrl(urls + [url], url)
  {
    EqualsIgnoreCaseBasics(url, url);
    if urls != [] {
      AppendedUrlIsListed(urls[1..], url);
      assert (urls + [url])[1..] == urls[1..] + [url];
    }
  }

  /** The registry invariant: no two listed URLs are equal ignoring case. */
  ghost predicate DistinctIgnoringCase(urls: seq<string>) {
    forall i, j :: 0 <= i < j < |urls| ==> !EqualsIgnoreCase(urls[i], urls[j])
  }

  /** Appending a URL that passed the duplicate check keeps the URLs distinct. */
  lemma {:induction false} AppendKeepsDistinct(urls: seq<string>, url: string)
    requires DistinctIgnoringCase(urls)
    requires !ContainsUrl(urls, url)
    ensures DistinctIgnoringCase(urls + [url])
  {
    ContainsUrlIffSomeMatch(urls, url);
    var s := urls + [url];
    forall i, j | 0 <= i < j < |s| ensures !EqualsIgnoreCase(s[i], s[j]) {
      if j < |urls| {
        assert s[i] == urls[i] && s[j] == urls[j];
      } else {
        assert s[i] == urls[i] && s[j] == url;
      }
    }
  }

  /** Deleting one entry keeps the URLs distinct. */
  lemma {:induction false} RemoveAtKeepsDistinct(urls: seq<string>, i: nat)
    requires i < |urls|
    requires DistinctIgnoringCase(urls)
    ensures DistinctIgnoringCase(urls[..i] + urls[i + 1..])
  {
    var s := urls[..i] + urls[i + 1..];
    forall a, b | 0 <= a < b < |s| ensures !EqualsIgnoreCase(s[a], s[b]) {
      var a' := if a < i then a else a + 1;
      var b' := if b < i then b else b + 1;
      assert s[a] == urls[a'] && s[b] == urls[b'] && a' < b';
    }
  }

  /** Position of the first occurrence of `x` in `s` (`IndexOf`, by identity for objects). */
  function IndexOf<T(==)>(s: seq<T>, x: T): (r: Option<nat>)
    ensures r.Some? ==> r.value < |s| && s[r.value] == x
  {
    if s == [] then None
    else if s[0] == x then Some(0)
    else
      match IndexOf(s[1..], x)
      case None => None
      case Some(i) => Some(i + 1)
  }

  /** `IndexOf` finds the first occurrence, and finds nothing only when `x` is absent. */
  lemma {:induction false} IndexOfIsFirstOccurrence<T>(s: seq<T>, x: T)
    ensures IndexOf(s, x).Some? ==> x !in s[..IndexOf(s, x).value]
    ensures IndexOf(s, x).None? <==> x !in s
  {
    if s != [] && s[0] != x {
      IndexOfIsFirstOccurrence(s[1..], x);
      match IndexOf(s[1..], x)
      case None =>
      case Some(i) =>
        assert s[..i + 1] == [s[0]] + s[1..][..i];
    }
  }

  /** `Collection<T>.Remove(x)`: the first occurrence of `x` taken out. */
  function RemoveFirst<T(==)>(s: seq<T>, x: T): seq<T> {
    if s == [] then []
    else if s[0] == x then s[1..]
    else [s[0]] + RemoveFirst(s[1..], x)
  }

  /** Removing keeps `s` as it is when `x` is absent; otherwise it deletes exactly the
      position of the first occurrence, and the others keep their order. */
  lemma {:induction false} RemoveFirstDeletesFirstOccurrence<T>(s: seq<T>, x: T)
    ensures IndexOf(s, x).None? ==> RemoveFirst(s, x) == s
    ensures IndexOf(s, x).Some? ==>
      var i := IndexOf(s, x).value;
      RemoveFirst(s, x) == s[..i] + s[i + 1..]
  {
    if s != [] && s[0] == x {
      assert s[..0] + s[1..] == s[1..];
    } else if s != [] {
      var tail := s[1..];
      RemoveFirstDeletesFirstOccurrence(tail, x);
      match IndexOf(tail, x)
      case None =>
        assert s == [s[0]] + tail;
      case Some(i) =>
        assert s[..i + 1] == [s[0]] + tail[..i];
        assert s[i + 2..] == tail[i + 1..];
    }
  }

  /** The items of `s` are pairwise different objects. */
  ghost predicate NoDuplicates<T>(s: seq<T>) {
    forall i, j :: 0 <= i < j < |s| ==> s[i] != s[j]
  }

  /** Deleting one item keeps the others pairwise different. */
  lemma {:induction false} RemoveAtKeepsNoDuplicates<T>(s: seq<T>, i: nat)
    requires i < |s|
    requires NoDuplicates(s)
    ensures NoDuplicates(s[..i] + s[i + 1..])
  {
    var t := s[..i] + s[i + 1..];
    forall a, b | 0 <= a < b < |t| ensures t[a] != t[b] {
      var a' := if a < i then a else a + 1;
      var b' := if b < i then b else b + 1;
      assert t[a] == s[a'] && t[b] == s[b'] && a' < b';
    }
  }

  /** Deleting one item adds no item. */
  lemma {:induction false} RemoveAtKeepsItemsOf<T>(s: seq<T>, i: nat)
    requires i < |s|
    ensures forall r :: r in s[..i] + s[i + 1..] ==> r in s
  {
    var t := s[..i] + s[i + 1..];
    forall r | r in t ensures r in s {
      var k :| 0 <= k < |t| && t[k] == r;
      assert t[k] == if k < i then s[k] else s[k + 1];
    }
  }

  /** In a list without duplicates a removed item is gone, so removing it a second
      time changes nothing. */
  lemma {:induction false} RemoveFirstIdempotent<T>(s: seq<T>, x: T)
    requires NoDuplicates(s)
    ensures x !in RemoveFirst(s, x)
    ensures RemoveFirst(RemoveFirst(s, x), x) == RemoveFirst(s, x)
  {
    RemoveFirstDeletesFirstOccurrence(s, x);
    IndexOfIsFirstOccurrence(s, x);
    if IndexOf(s, x).Some? {
      var i := IndexOf(s, x).value;
      var r := RemoveFirst(s, x);
      forall k | 0 <= k < |r| ensures r[k] != x {
        if k < i {
          assert r[k] == s[k];
        } else {
          assert r[k] == s[k + 1];
        }
      }
      IndexOfIsFirstOccurrence(r, x);
      RemoveFirstDeletesFirstOccurrence(r, x);
    }
  }
}
