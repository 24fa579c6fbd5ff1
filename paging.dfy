/** Query-string integers and page arithmetic shared by `GET /pets/all` and
    `GET /donations-campaigns`. */
module Paging {
  import opened Common

  const DefaultPage := 1
  const DefaultLimit := 6

  function Abs(x: int): nat { if x < 0 then -x else x }
  function Min(a: int, b: int): int { if a <= b then a else b }

  // ---------------------------------------------------------------------------
  // JavaScript `parseInt(text)` with no radix argument

  predicate IsSpace(c: char)
  {
    c == ' ' || c == '\t' || c == '\n' || c == '\r'
  }

  function TrimStart(s: string): (r: string)
    ensures |r| <= |s| && r == s[|s| - |r|..]
    ensures r != [] ==> !IsSpace(r[0])
  {
    if s != [] && IsSpace(s[0]) then TrimStart(s[1..]) else s
  }

  /** The value of `c` as a digit in base `radix` (10 or 16), if it is one. */
  function DigitValue(c: char, radix: nat): Option<nat>
  {
    if '0' <= c <= '9' && (c as int) - ('0' as int) < radix then Some((c as int) - ('0' as int))
    else if radix == 16 && 'a' <= c <= 'f' then Some((c as int) - ('a' as int) + 10)
    else if radix == 16 && 'A' <= c <= 'F' then Some((c as int) - ('A' as int) + 10)
    else None
  }

  predicate IsDigitOf(c: char, radix: nat)
  {
    DigitValue(c, radix).Some?
  }

  /** Length of the longest prefix of `s` made of base-`radix` digits. */
  function DigitRun(s: string, radix: nat): (n: nat)
    ensures n <= |s|
    ensures forall k :: 0 <= k < n ==> IsDigitOf(s[k], radix)
    ensures n < |s| ==> !IsDigitOf(s[n], radix)
  {
    if s != [] && IsDigitOf(s[0], radix) then 1 + DigitRun(s[1..], radix) else 0
  }

  /** The number a string of base-`radix` digits denotes, most significant digit first. */
  function DigitsValue(ds: string, radix: nat): nat
    requires forall k :: 0 <= k < |ds| ==> IsDigitOf(ds[k], radix)
  {
    if ds == [] then 0
    else
      assert IsDigitOf(ds[|ds| - 1], radix);
      var prefix := DigitsValue(ds[..|ds| - 1], radix);
      var last := DigitValue(ds[|ds| - 1], radix).value;
      Shifted(radix, prefix, last);
      radix * prefix + last
  }

  /** A number followed by one more digit is still a natural number. */
  lemma {:induction false} Shifted(radix: nat, prefix: nat, last: nat)
    ensures radix * prefix + last >= 0
  {
  }

  /** The longest run of base-`radix` digits at the front of `digits`, as a number;
      no digit at all gives NaN, written `None`. */
  function LeadingNumber(digits: string, radix: nat): (r: Option<int>)
    ensures digits != [] && IsDigitOf(digits[0], radix) ==> r.Some?
    ensures r.Some? ==> r.value >= 0
  {
    var n := DigitRun(digits, radix);
    if n == 0 then None else Some(DigitsValue(digits[..n], radix))
  }

  /** The unsigned part of `parseInt`: base 16 after a `0x`/`0X` prefix, otherwise
      base 10. */
  function ParseUnsigned(u: string): (r: Option<int>)
    ensures u != [] && '1' <= u[0] <= '9' ==> r.Some?
    ensures r.Some? ==> r.value >= 0
  {
    if |u| >= 2 && u[0] == '0' && (u[1] == 'x' || u[1] == 'X') then LeadingNumber(u[2..], 16)
    else LeadingNumber(u, 10)
  }

  /** `parseInt(text)` with no radix: leading white space skipped, an optional sign,
      then the unsigned part. */
  function ParseInt(text: string): (r: Option<int>)
    ensures text != [] && '1' <= text[0] <= '9' ==> r.Some?
    ensures r.Some? && r.value < 0 ==> '-' in text
  {
    var t := TrimStart(text);
    assert text != [] && !IsSpace(text[0]) ==> t == text;
    if t != [] && t[0] == '-' then
      assert t[0] == text[|text| - |t|];
      match ParseUnsigned(t[1..])
      case None => None
      case Some(v) => Some(-v)
    else if t != [] && t[0] == '+' then ParseUnsigned(t[1..])
    else ParseUnsigned(t)
  }

  // Decimal text of an integer, as a client writes `?page=3`

  function DigitChar(d: nat): (c: char)
    requires d < 10
    ensures DigitValue(c, 10) == Some(d)
  {
    (('0' as int) + d) as char
  }

  function Decimal(n: nat): (s: string)
    ensures |s| >= 1
    ensures forall k :: 0 <= k < |s| ==> '0' <= s[k] <= '9'
  {
    if n < 10 then [DigitChar(n)] else Decimal(n / 10) + [DigitChar(n % 10)]
  }

  function Show(n: int): string
  {
    if n < 0 then ['-'] + Decimal(-n) else Decimal(n)
  }

  lemma {:induction false} DecimalDenotes(n: nat)
    ensures forall k :: 0 <= k < |Decimal(n)| ==> IsDigitOf(Decimal(n)[k], 10)
    ensures DigitsValue(Decimal(n), 10) == n
  {
    var s := Decimal(n);
    if n >= 10 {
      DecimalDenotes(n / 10);
      assert s[..|s| - 1] == Decimal(n / 10);
    }
  }

  /** A run of decimal digits followed by text that does not continue it denotes the
      number the digits spell. */
  lemma {:induction false} ParseUnsignedDigits(d: string, rest: string)
    requires |d| >= 1 && forall k :: 0 <= k < |d| ==> IsDigitOf(d[k], 10)
    requires rest == [] || (!IsDigitOf(rest[0], 10) && rest[0] != 'x' && rest[0] != 'X')
    ensures ParseUnsigned(d + rest) == Some(DigitsValue(d, 10))
  {
    var u := d + rest;
    assert |u| >= 2 ==> u[1] != 'x' && u[1] != 'X' by {
      if |u| >= 2 {
        if |d| >= 2 {
          assert u[1] == d[1];
        } else {
          assert u[1] == rest[0];
        }
      }
    }
    DigitRunOfPrefix(d, rest);
    assert u[..|d|] == d;
  }

  lemma {:induction false} ParseUnsignedDecimal(m: nat, rest: string)
    requires rest == [] || (!IsDigitOf(rest[0], 10) && rest[0] != 'x' && rest[0] != 'X')
    ensures ParseUnsigned(Decimal(m) + rest) == Some(m)
  {
    DecimalDenotes(m);
    ParseUnsignedDigits(Decimal(m), rest);
  }

  /** Text that starts with a digit is read by the unsigned part alone. */
  lemma {:induction false} ParseIntUnsigned(u: string)
    requires u != [] && '0' <= u[0] <= '9'
    ensures ParseInt(u) == ParseUnsigned(u)
  {
    assert TrimStart(u) == u;
  }

  /** A `-` followed by a digit negates what the unsigned part reads. */
  lemma {:induction false} ParseIntMinus(t: string, u: string, v: int)
    requires t == ['-'] + u
    requires u != [] && '0' <= u[0] <= '9' && ParseUnsigned(u) == Some(v)
    ensures ParseInt(t) == Some(-v)
  {
    assert t[0] == '-' && t[1..] == u;
    assert TrimStart(t) == t;
  }

  /** The decimal text of a natural number, followed by text that does not continue it,
      reads back as that number. */
  lemma {:induction false} ParseIntShowNatural(n: nat, rest: string)
    requires rest == [] || (!IsDigitOf(rest[0], 10) && rest[0] != 'x' && rest[0] != 'X')
    ensures ParseInt(Show(n) + rest) == Some(n)
  {
    var u := Show(n) + rest;
    assert u == Decimal(n) + rest;
    assert ParseUnsigned(u) == Some(n) && u != [] && '0' <= u[0] <= '9' by {
      ParseUnsignedDecimal(n, rest);
      assert u[0] == Decimal(n)[0];
    }
    ParseIntUnsigned(u);
  }

  /** The same for a negative number, written with a leading `-`. */
  lemma {:induction false} ParseIntShowNegative(n: int, rest: string)
    requires n < 0
    requires rest == [] || (!IsDigitOf(rest[0], 10) && rest[0] != 'x' && rest[0] != 'X')
    ensures ParseInt(Show(n) + rest) == Some(n)
  {
    var m: nat := -n;
    var u := Decimal(m) + rest;
    var text := Show(n) + rest;
    assert text == ['-'] + u by {
      assert Show(n) == ['-'] + Decimal(m);
    }
    assert ParseUnsigned(u) == Some(m) && u != [] && '0' <= u[0] <= '9' by {
      ParseUnsignedDecimal(m, rest);
      assert u[0] == Decimal(m)[0];
    }
    ParseIntMinus(text, u, m);
  }

  /** Reading back the decimal text of any integer, followed by text that does not
      continue the number, gives that integer. */
  lemma {:induction false} ParseIntShow(n: int, rest: string)
    requires rest == [] || (!IsDigitOf(rest[0], 10) && rest[0] != 'x' && rest[0] != 'X')
    ensures ParseInt(Show(n) + rest) == Some(n)
  {
    if n < 0 {
      ParseIntShowNegative(n, rest);
    } else {
      ParseIntShowNatural(n, rest);
    }
  }

  lemma {:induction false} DigitRunOfPrefix(d: string, rest: string)
    requires forall k :: 0 <= k < |d| ==> IsDigitOf(d[k], 10)
    requires rest == [] || !IsDigitOf(rest[0], 10)
    ensures DigitRun(d + rest, 10) == |d|
  {
    if d != [] {
      assert (d + rest)[1..] == d[1..] + rest;
      DigitRunOfPrefix(d[1..], rest);
    } else {
      assert d + rest == rest;
    }
  }

  // ---------------------------------------------------------------------------
  // `parseInt(req.query.x) || fallback`

  /** A missing parameter parses to NaN; NaN and 0 are falsy, so both give way to the fallback. */
  function IntOr(param: Option<string>, fallback: int): (r: int)
    ensures fallback != 0 ==> r != 0
    ensures r == fallback || (param.Some? && ParseInt(param.value) == Some(r))
    ensures param.Some? && ParseInt(param.value).Some? && ParseInt(param.value).value != 0
            ==> r == ParseInt(param.value).value
    ensures param.None? || ParseInt(param.value) == None || ParseInt(param.value) == Some(0)
            ==> r == fallback
  {
    if param.None? then fallback
    else match ParseInt(param.value)
      case None => fallback
      case Some(v) => if v == 0 then fallback else v
  }

  datatype Paging = Paging(page: int, limit: int)

  /** `page = parseInt(page) || 1`, `limit = parseInt(limit) || 6`. */
  function ReadPaging(page: Option<string>, limit: Option<string>): (p: Paging)
    ensures p.page != 0 && p.limit != 0
  {
    Paging(IntOr(page, DefaultPage), IntOr(limit, DefaultLimit))
  }

  /** What a client gets for missing parameters and for parameters written as integers. */
  lemma {:induction false} PagingDefaults(n: int, m: int)
    ensures ReadPaging(None, None) == Paging(1, 6)
    ensures ReadPaging(Some(Show(n)), Some(Show(m)))
         == Paging(if n == 0 then 1 else n, if m == 0 then 6 else m)
  {
    ParseIntShow(n, "");
    ParseIntShow(m, "");
    assert Show(n) + "" == Show(n);
    assert Show(m) + "" == Show(m);
  }

  /** `skip = (page - 1) * limit`. */
  function Skip(p: Paging): int
  {
    (p.page - 1) * p.limit
  }

  // ---------------------------------------------------------------------------
  // `.skip(skip).limit(limit)` on a sorted cursor

  /** What the store is asked to return: `skip` documents passed over, then at most
      `limit` of them; a limit of 0 means no limit. */
  datatype Window = Window(skip: nat, limit: nat)

  /** The window a page request becomes. MongoDB rejects a negative skip (None); the
      Node driver sends a negative limit as its magnitude, in a single batch. */
  function WindowOf(p: Paging): (w: Option<Window>)
    ensures w.Some? <==> Skip(p) >= 0
    ensures w.Some? ==> w.value.skip == Skip(p) && w.value.limit == Abs(p.limit)
  {
    if Skip(p) < 0 then None else Some(Window(Skip(p), Abs(p.limit)))
  }

  /** The documents of `s` the window selects. */
  function Slice<T>(s: seq<T>, w: Window): (r: seq<T>)
    ensures w.limit > 0 ==> |r| <= w.limit
    ensures |r| == if w.skip >= |s| then 0
                   else if w.limit == 0 then |s| - w.skip
                   else Min(w.limit, |s| - w.skip)
    ensures forall k :: 0 <= k < |r| ==> r[k] == s[w.skip + k]
  {
    if w.skip >= |s| then []
    else if w.limit == 0 then s[w.skip..]
    else s[w.skip..Min(w.skip + w.limit, |s|)]
  }

  /** `hasMore` of the pet catalog: `skip + pets.length < totalCount`. */
  predicate CountHasMore(skip: int, returned: nat, total: nat)
  {
    skip + returned < total
  }

  /** `hasMore` of the campaign list: `page * limit < total`. */
  predicate PageHasMore(p: Paging, total: nat)
  {
    p.page * p.limit < total
  }

  /** The pet formula says "more" exactly when the following page is not empty. */
  lemma {:induction false} HasMoreIffNextPageNonEmpty<T>(s: seq<T>, skip: nat, limit: nat)
    requires limit >= 1
    ensures CountHasMore(skip, |Slice(s, Window(skip, limit))|, |s|)
        <==> Slice(s, Window(skip + limit, limit)) != []
  {
  }

  /** For every page from 1 on, the campaign formula `page * limit < total` and the
      pet formula `skip + returned < total` agree, full page or not. */
  lemma {:induction false} PageFormulasAgree<T>(s: seq<T>, p: Paging)
    requires p.page >= 1 && p.limit >= 1
    ensures Skip(p) >= 0
    ensures PageHasMore(p, |s|)
        <==> CountHasMore(Skip(p), |Slice(s, Window(Skip(p), p.limit))|, |s|)
  {
    assert Skip(p) + p.limit == p.page * p.limit;
    assert Skip(p) >= 0 by {
      assert (p.page - 1) * p.limit >= 0 * p.limit;
    }
  }

  /** Everything returned by pages 1 through `pages`, in order. */
  function PagesUpTo<T>(s: seq<T>, pages: nat, limit: nat): seq<T>
  {
    if pages == 0 then [] else PagesUpTo(s, pages - 1, limit) + Slice(s, Window((pages - 1) * limit, limit))
  }

  /** Pages 1 through `pages` together are exactly the first `pages * limit` documents. */
  lemma {:induction false} PagesCoverPrefix<T>(s: seq<T>, pages: nat, limit: nat)
    requires limit >= 1
    ensures PagesUpTo(s, pages, limit) == s[..Min(pages * limit, |s|)]
  {
    if pages > 0 {
      var before := (pages - 1) * limit;
      var after := pages * limit;
      PageStart(pages, limit);
      var prev := PagesUpTo(s, pages - 1, limit);
      var w := Slice(s, Window(before, limit));
      assert PagesUpTo(s, pages, limit) == prev + w;
      assert prev == s[..Min(before, |s|)] by {
        PagesCoverPrefix(s, pages - 1, limit);
      }
      if before >= |s| {
        assert w == [] && Min(before, |s|) == |s| == Min(after, |s|);
      } else {
        assert w == s[before..Min(after, |s|)];
        PrefixSplit(s, before, Min(after, |s|));
      }
    }
  }

  /** A prefix is a shorter prefix followed by the documents between the two ends. */
  lemma {:induction false} PrefixSplit<T>(s: seq<T>, a: nat, b: nat)
    requires a <= b <= |s|
    ensures s[..b] == s[..a] + s[a..b]
  {
    assert forall k :: 0 <= k < b ==> s[..b][k] == (s[..a] + s[a..b])[k];
  }

  /** The first document of page `pages` comes `limit` documents after that of the
      page before. */
  lemma {:induction false} PageStart(pages: nat, limit: nat)
    requires pages > 0
    ensures (pages - 1) * limit + limit == pages * limit && (pages - 1) * limit >= 0
  {
  }

  /** The `hasMore` of page `page` holds exactly when pages 1..page together have
      returned fewer documents than match. */
  lemma {:induction false} HasMoreIffUnseen<T>(s: seq<T>, p: Paging)
    requires p.page >= 1 && p.limit >= 1
    ensures CountHasMore(Skip(p), |Slice(s, Window(Skip(p), p.limit))|, |s|)
        <==> |PagesUpTo(s, p.page, p.limit)| < |s|
  {
    PagesCoverPrefix(s, p.page, p.limit);
    PageFormulasAgree(s, p);
  }

  /** The page that holds the document at position `i`: page `i / limit + 1`, where the
      document sits `i % limit` places from the start. */
  lemma {:induction false} EveryItemOnItsPage<T>(s: seq<T>, i: nat, limit: nat) returns (page: int)
    requires i < |s| && limit >= 1
    ensures page >= 1
    ensures var p := Paging(page, limit);
            && 0 <= Skip(p) <= i
            && WindowOf(p) == Some(Window(Skip(p), limit))
            && var onPage := Slice(s, Window(Skip(p), limit));
               i - Skip(p) < |onPage| && onPage[i - Skip(p)] == s[i]
  {
    var q: nat := i / limit;
    var skip: nat := q * limit;
    page := q + 1;
    assert Skip(Paging(page, limit)) == skip;
    assert skip + i % limit == i;
  }

  /** Paging through with a fixed positive limit reaches every document of `s`. */
  lemma {:induction false} SomePageHolds<T>(s: seq<T>, x: T, limit: int)
    requires limit >= 1 && x in s
    ensures exists page: int ::
              page >= 1 && WindowOf(Paging(page, limit)).Some?
              && x in Slice(s, WindowOf(Paging(page, limit)).value)
  {
    var i :| 0 <= i < |s| && s[i] == x;
    var page := EveryItemOnItsPage(s, i, limit);
    var p := Paging(page, limit);
    assert Slice(s, WindowOf(p).value)[i - Skip(p)] == x;
  }
}
