/** The listing URL that the `find` operation requests for one page
    (nodes/USign/USign.node.ts:176), and the fact that the page size and the
    page number can be read back from it. */
module ListingUrl {

  /** What stays the same across the pages of one listing: the service's base
      URL, the entity path segment and the `tree` flag ("All Subdomains"). */
  datatype Listing = Listing(urlBase: string, entity: string, allSubdomains: bool)

  predicate IsDigit(c: char) {
    '0' <= c <= '9'
  }

  predicate AllDigits(s: string) {
    forall i :: 0 <= i < |s| ==> IsDigit(s[i])
  }

  function DigitChar(d: nat): (c: char)
    requires d < 10
    ensures IsDigit(c) && c as int - '0' as int == d
  {
    ('0' as int + d) as char
  }

  /** A natural number the way a template literal prints it when it is below
      10^21 (larger numbers print in exponent form there): decimal digits, no
      sign, no leading zero. */
  function Decimal(n: nat): (s: string)
    ensures |s| >= 1 && AllDigits(s)
    ensures s[0] == '0' <==> n == 0
  {
    if n < 10 then [DigitChar(n)] else Decimal(n / 10) + [DigitChar(n % 10)]
  }

  /** The number a string of decimal digits denotes. */
  function DecimalValue(s: string): nat
    requires AllDigits(s)
  {
    if s == [] then 0
    else 10 * DecimalValue(s[..|s| - 1]) + (s[|s| - 1] as int - '0' as int)
  }

  /** Reading a printed number back gives the number. */
  lemma {:induction false} DecimalRoundTrip(n: nat)
    ensures DecimalValue(Decimal(n)) == n
  {
    if n >= 10 {
      var s := Decimal(n);
      assert s[..|s| - 1] == Decimal(n / 10);
      DecimalRoundTrip(n / 10);
    }
  }

  /** Everything in the URL before the page size. */
  function Prefix(l: Listing): string {
    l.urlBase + "/" + l.entity + "/?noCache=true&tree="
    + (if l.allSubdomains then "true" else "false") + "&perPage="
  }

  /** `{urlBase}/{entity}/?noCache=true&tree={true|false}&perPage={perPage}&page={page}` */
  function Url(l: Listing, perPage: nat, page: nat): string {
    Prefix(l) + Decimal(perPage) + "&page=" + Decimal(page)
  }

  lemma CharAfter(a: string, r: string)
    requires |r| >= 1
    ensures (a + r)[|a|] == r[0]
  {
  }

  /** Two digit strings each followed by a text that starts with '&' can only
      make the same string when the digits and the rests agree. */
  lemma SplitAtSeparator(a1: string, r1: string, a2: string, r2: string)
    requires AllDigits(a1) && AllDigits(a2)
    requires |r1| >= 1 && r1[0] == '&' && |r2| >= 1 && r2[0] == '&'
    requires a1 + r1 == a2 + r2
    ensures a1 == a2 && r1 == r2
  {
    assert |a1| == |a2| by {
      if |a1| < |a2| {
        CharAfter(a1, r1);
        assert false;
      }
      if |a2| < |a1| {
        CharAfter(a2, r2);
        assert false;
      }
    }
    assert a1 == (a1 + r1)[..|a1|];
    assert a2 == (a2 + r2)[..|a2|];
    assert r1 == (a1 + r1)[|a1|..];
    assert r2 == (a2 + r2)[|a2|..];
  }

  /** Within one listing the URL determines the page size and the page number
      it asks for, so a server that sees only the URL can answer any
      (page size, page number) pair differently. */
  lemma UrlDeterminesQuery(l: Listing, perPage1: nat, page1: nat, perPage2: nat, page2: nat)
    requires Url(l, perPage1, page1) == Url(l, perPage2, page2)
    ensures perPage1 == perPage2 && page1 == page2
  {
    var p := Prefix(l);
    var sep := "&page=";
    var t1 := Decimal(perPage1) + (sep + Decimal(page1));
    var t2 := Decimal(perPage2) + (sep + Decimal(page2));
    UrlParts(p, Decimal(perPage1), sep, Decimal(page1));
    UrlParts(p, Decimal(perPage2), sep, Decimal(page2));
    DropCommonPrefix(p, t1, t2);
    SplitAtSeparator(Decimal(perPage1), sep + Decimal(page1), Decimal(perPage2), sep + Decimal(page2));
    DropCommonPrefix(sep, Decimal(page1), Decimal(page2));
    DecimalRoundTrip(perPage1);
    DecimalRoundTrip(perPage2);
    DecimalRoundTrip(page1);
    DecimalRoundTrip(page2);
  }

  lemma UrlParts(p: string, a: string, sep: string, b: string)
    ensures p + a + sep + b == p + (a + (sep + b))
  {
  }

  lemma DropCommonPrefix(p: string, t1: string, t2: string)
    requires p + t1 == p + t2
    ensures t1 == t2
  {
    assert t1 == (p + t1)[|p|..];
    assert t2 == (p + t2)[|p|..];
  }
}
