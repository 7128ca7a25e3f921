/**
 * Normalising the address typed on the home screen: the scheme prefix of both
 * revisions and the port suffix of the earlier one, each as written and as evidently
 * intended.
 */
module Urls {
  import opened Text

  function StartsWith(s: string, p: string): bool {
    |p| <= |s| && s[..|p|] == p
  }

  const HttpScheme: string := "http://"
  const HttpsScheme: string := "https://"

  /** The address already names the http or https scheme. */
  predicate HasScheme(url: string) {
    StartsWith(url, HttpScheme) || StartsWith(url, HttpsScheme)
  }

  // ---------------------------------------------------------------------------
  // The scheme
  // ---------------------------------------------------------------------------

  /** The earlier revision's rule: prefix "http://" unless "http://" or "https://" is there. */
  function WithScheme(url: string): (r: string)
    ensures HasScheme(r)
    ensures HasScheme(url) ==> r == url
    ensures !HasScheme(url) ==> r == HttpScheme + url
  {
    if !StartsWith(url, HttpScheme) && !StartsWith(url, HttpsScheme) then
      assert (HttpScheme + url)[..|HttpScheme|] == HttpScheme;
      HttpScheme + url
    else url
  }

  /** The later revision's rule as written: prefix "http://" unless the text starts with "http". */
  function PrefixHttpAsWritten(url: string): (r: string)
    ensures StartsWith(url, "http") ==> r == url
    ensures !StartsWith(url, "http") ==> r == HttpScheme + url
  {
    if !StartsWith(url, "http") then HttpScheme + url else url
  }

  /**
   * The two rules agree except on a text that starts with "http" without being a
   * scheme, which the later rule leaves without one.
   */
  lemma SchemeRulesDiffer(url: string)
    ensures PrefixHttpAsWritten(url) == WithScheme(url) <==> HasScheme(url) || !StartsWith(url, "http")
  {
    if StartsWith(url, HttpScheme) {
      assert url[..4] == url[..7][..4];
    } else if StartsWith(url, HttpsScheme) {
      assert url[..4] == url[..8][..4];
    } else if StartsWith(url, "http") {
      assert |WithScheme(url)| == |url| + 7;
    }
  }

  /** "httpbin.org" passes the later rule unchanged, with no scheme. */
  lemma SchemeCounterexample()
    ensures PrefixHttpAsWritten("httpbin.org") == "httpbin.org"
    ensures !HasScheme("httpbin.org")
    ensures WithScheme("httpbin.org") == "http://httpbin.org"
  {
    assert "httpbin.org"[..4] == "http";
    assert "httpbin.org"[..7] != HttpScheme by { assert "httpbin.org"[4] != HttpScheme[4]; }
    assert "httpbin.org"[..8] != HttpsScheme by { assert "httpbin.org"[4] != HttpsScheme[4]; }
  }

  // ---------------------------------------------------------------------------
  // The port
  // ---------------------------------------------------------------------------

  /**
   * The earlier revision's rule as written: append ":port" to the whole address when
   * the port is non-empty and the text after the last ':' is not all digits.
   */
  function AppendPortAsWritten(url: string, port: string): (r: string)
    ensures port == [] || AllDigits(AfterLast(url, ':')) ==> r == url
    ensures port != [] && !AllDigits(AfterLast(url, ':')) ==> r == url + ":" + port
  {
    if port != [] && !AllDigits(AfterLast(url, ':')) then url + ":" + port else url
  }

  /** The length of the scheme prefix, which ends in "://". */
  function SchemeLength(url: string): (n: nat)
    requires HasScheme(url)
    ensures 3 <= n <= |url|
    ensures url[n - 3] == ':' && url[n - 2] == '/' && url[n - 1] == '/'
  {
    if StartsWith(url, HttpScheme) then
      assert url[4] == url[..7][4] && url[5] == url[..7][5] && url[6] == url[..7][6];
      |HttpScheme|
    else
      assert url[5] == url[..8][5] && url[6] == url[..8][6] && url[7] == url[..8][7];
      |HttpsScheme|
  }

  /** A text that shares the scheme prefix has the same scheme. */
  lemma SameSchemePrefix(url: string, r: string, n: nat)
    requires HasScheme(url) && SchemeLength(url) <= n <= |url| && n <= |r|
    requires r[..n] == url[..n]
    ensures HasScheme(r) && SchemeLength(r) == SchemeLength(url)
  {
    assert r[..7] == r[..n][..7] == url[..n][..7] == url[..7];
    if !StartsWith(url, HttpScheme) {
      assert r[..8] == r[..n][..8] == url[..n][..8] == url[..8];
    }
  }

  /** What follows the last ':' of `x + ":" + y`, when `y` has none, is `y`. */
  lemma AfterLastColon(x: string, y: string)
    requires ':' !in y
    ensures AfterLast(x + [':'] + y, ':') == y
  {
    var s := x + [':'] + y;
    LastCutIs(s, ':', |x| + 1);
    assert s[|x| + 1..] == y;
  }

  /** Digits hold neither ':' nor an authority-ending character. */
  lemma DigitsAreNotSeparators(port: string)
    requires AllDigits(port)
    ensures ':' !in port
    ensures forall k :: 0 <= k < |port| ==> !EndsAuthority(port[k])
  {
    forall k | 0 <= k < |port| ensures port[k] != ':' && !EndsAuthority(port[k]) {
      assert IsDigit(port[k]);
    }
  }

  /** The characters that end the authority part of an address. */
  predicate EndsAuthority(c: char) {
    c == '/' || c == '?' || c == '#'
  }

  /** The index of the first authority-ending character at or after `i`, else the length. */
  function AuthorityEnd(url: string, i: nat): (e: nat)
    requires i <= |url|
    ensures i <= e <= |url|
    ensures forall k :: i <= k < e ==> !EndsAuthority(url[k])
    ensures e < |url| ==> EndsAuthority(url[e])
    decreases |url| - i
  {
    if i == |url| then i
    else if EndsAuthority(url[i]) then i
    else AuthorityEnd(url, i + 1)
  }

  /** The authority end is the one index that the three properties above describe. */
  lemma {:induction false} AuthorityEndIs(url: string, i: nat, e: nat)
    requires i <= e <= |url|
    requires forall k :: i <= k < e ==> !EndsAuthority(url[k])
    requires e < |url| ==> EndsAuthority(url[e])
    ensures AuthorityEnd(url, i) == e
    decreases |url| - i
  {
    if i < e {
      AuthorityEndIs(url, i + 1, e);
    }
  }

  /** The host part (with any user info and port) of an address with a scheme. */
  function Authority(url: string): string
    requires HasScheme(url)
  {
    url[SchemeLength(url)..AuthorityEnd(url, SchemeLength(url))]
  }

  /** The path, query and fragment of an address with a scheme. */
  function Rest(url: string): string
    requires HasScheme(url)
  {
    url[AuthorityEnd(url, SchemeLength(url))..]
  }

  /** An authority already carries a port: a ':' followed only by digits. */
  predicate HasPort(authority: string) {
    ':' in authority && AllDigits(AfterLast(authority, ':'))
  }

  /**
   * The evidently intended rule: insert ":port" at the end of the authority when the
   * port is non-empty and the authority has no port yet.
   */
  function WithPort(url: string, port: string): (r: string)
    requires HasScheme(url)
    ensures HasScheme(r) && SchemeLength(r) == SchemeLength(url)
  {
    if port == [] || HasPort(Authority(url)) then url
    else
      var e := AuthorityEnd(url, SchemeLength(url));
      var r := url[..e] + ":" + port + url[e..];
      assert r[..e] == url[..e];
      SameSchemePrefix(url, r, e);
      r
  }

  /** Inserting text free of authority-ending characters at the authority end moves that end past it. */
  lemma {:induction false} AuthorityEndAfterInsert(url: string, s: nat, mid: string)
    requires s <= |url|
    requires forall k :: 0 <= k < |mid| ==> !EndsAuthority(mid[k])
    ensures AuthorityEnd(url, s) <= |url|
    ensures var e := AuthorityEnd(url, s);
            AuthorityEnd(url[..e] + mid + url[e..], s) == e + |mid|
  {
    var e := AuthorityEnd(url, s);
    var r := url[..e] + mid + url[e..];
    forall k | s <= k < e + |mid| ensures !EndsAuthority(r[k]) {
      if k < e {
        assert r[k] == url[k];
      } else {
        assert r[k] == mid[k - e];
      }
    }
    if e + |mid| < |r| {
      assert r[e + |mid|] == url[e];
    }
    AuthorityEndIs(r, s, e + |mid|);
  }

  /** The slices of a sequence with `mid` inserted at `e`. */
  lemma InsertSlices<T>(x: seq<T>, s: nat, e: nat, mid: seq<T>)
    requires s <= e <= |x|
    ensures (x[..e] + mid + x[e..])[..e] == x[..e]
    ensures (x[..e] + mid + x[e..])[..s] == x[..s]
    ensures (x[..e] + mid + x[e..])[e + |mid|..] == x[e..]
    ensures (x[..e] + mid + x[e..])[s..e + |mid|] == x[s..e] + mid
  {
    var r := x[..e] + mid + x[e..];
    assert r[..s] == r[..e][..s];
    assert r[s..e + |mid|] == x[s..e] + mid by {
      forall k | 0 <= k < e + |mid| - s ensures r[s..e + |mid|][k] == (x[s..e] + mid)[k] {
        if s + k < e {
          assert r[s + k] == x[s + k];
        } else {
          assert r[s + k] == mid[s + k - e];
        }
      }
    }
  }

  /** ":port" with a port of digits has no authority-ending character. */
  lemma PortSuffixInAuthority(port: string)
    requires AllDigits(port)
    ensures ':' !in port
    ensures forall k :: 0 <= k < |":" + port| ==> !EndsAuthority((":" + port)[k])
  {
    DigitsAreNotSeparators(port);
    forall k | 0 <= k < |":" + port| ensures !EndsAuthority((":" + port)[k]) {
      if k > 0 {
        assert (":" + port)[k] == port[k - 1];
      }
    }
  }

  /** An authority followed by ":port" has a port. */
  lemma AuthorityWithPort(a: string, port: string)
    requires AllDigits(port)
    ensures HasPort(a + ":" + port)
  {
    PortSuffixInAuthority(port);
    assert a + ":" + port == a + [':'] + port;
    AfterLastColon(a, port);
    assert (a + ":" + port)[|a|] == ':';
  }

  /**
   * Where a port of digits goes: with ":port" inserted at the authority end, the scheme
   * is kept, the authority end moves past it, and the text on either side is unchanged.
   */
  lemma PortInsertLayout(url: string, port: string)
    requires HasScheme(url)
    requires AllDigits(port)
    ensures var s := SchemeLength(url);
            var e := AuthorityEnd(url, s);
            var r := url[..e] + ":" + port + url[e..];
            HasScheme(r) && SchemeLength(r) == s && AuthorityEnd(r, s) == e + |port| + 1
            && r[..s] == url[..s] && r[e + |port| + 1..] == url[e..] && r[s..e + |port| + 1] == url[s..e] + ":" + port
  {
    var s := SchemeLength(url);
    var e := AuthorityEnd(url, s);
    var mid := ":" + port;
    var r := url[..e] + ":" + port + url[e..];
    assert r == url[..e] + mid + url[e..];
    PortSuffixInAuthority(port);
    InsertSlices(url, s, e, mid);
    SameSchemePrefix(url, r, e);
    AuthorityEndAfterInsert(url, s, mid);
  }

  /**
   * Adding a port of digits keeps the scheme and the path, query and fragment, and
   * appends ":port" to the authority, which then has a port.
   */
  lemma WithPortPlacesPort(url: string, port: string)
    requires HasScheme(url)
    requires AllDigits(port) && port != []
    requires !HasPort(Authority(url))
    ensures HasScheme(WithPort(url, port))
    ensures WithPort(url, port)[..SchemeLength(url)] == url[..SchemeLength(url)]
    ensures Rest(WithPort(url, port)) == Rest(url)
    ensures Authority(WithPort(url, port)) == Authority(url) + ":" + port
    ensures HasPort(Authority(WithPort(url, port)))
  {
    PortInsertLayout(url, port);
    AuthorityWithPort(Authority(url), port);
  }

  /**
   * On an address with no path, query or fragment, the text after its last ':' is
   * all digits exactly when the authority has a port: it is the authority's port, or
   * starts with "//" when the authority has no ':'.
   */
  lemma LastColonIsPort(url: string)
    requires HasScheme(url)
    requires Rest(url) == []
    ensures AllDigits(AfterLast(url, ':')) <==> HasPort(Authority(url))
  {
    var s := SchemeLength(url);
    var a := Authority(url);
    assert url == url[..s] + a;
    if ':' in a {
      AfterLastConcat(url[..s], a, ':');
    } else {
      assert url == url[..s - 3] + [':'] + ("//" + a);
      AfterLastColon(url[..s - 3], "//" + a);
      assert !IsDigit(AfterLast(url, ':')[0]);
    }
  }

  /** On an address with no path, query or fragment the two port rules agree. */
  lemma PortRulesAgreeWithoutPath(url: string, port: string)
    requires HasScheme(url)
    requires Rest(url) == []
    ensures AppendPortAsWritten(url, port) == WithPort(url, port)
  {
    LastColonIsPort(url);
    var e := AuthorityEnd(url, SchemeLength(url));
    assert url[..e] == url;
  }

  /** "http://h/p" with port "8080": the as-written rule puts the port after the path. */
  lemma PortCounterexample()
    ensures AppendPortAsWritten("http://h/p", "8080") == "http://h/p:8080"
    ensures WithPort("http://h/p", "8080") == "http://h:8080/p"
  {
    PortAppendedAfterPath();
    PortInsertedBeforePath();
  }

  /** The text after the last ':' of "http://h/p" is "//h/p", not digits. */
  lemma PortAppendedAfterPath()
    ensures AppendPortAsWritten("http://h/p", "8080") == "http://h/p:8080"
  {
    var url := "http://h/p";
    assert url == "http" + [':'] + "//h/p";
    AfterLastColon("http", "//h/p");
    assert !IsDigit("//h/p"[0]);
  }

  /** The authority of "http://h/p" is "h", which has no port, so ":8080" goes after it. */
  lemma PortInsertedBeforePath()
    ensures WithPort("http://h/p", "8080") == "http://h:8080/p"
  {
    var url := "http://h/p";
    assert SchemeLength(url) == 7;
    AuthorityEndIs(url, 7, 8);
    assert Authority(url) == "h";
    assert url[..8] + ":" + "8080" + url[8..] == "http://h:8080/p";
  }
}
