/** The pure part of `GitlabApiService`: version parsing, the choice between
    offset and keyset pagination, page following over a finite sequence of
    server replies, extraction of the next URL from a `Link` header, the
    project query options and the tagging of search rows. The n-th reply of
    a sequence answers the n-th request of the recursion. */
module GitlabApi {
  import opened Wrappers
  import opened Strings
  import opened Seqs
  import opened GitlabModel

  // ---------------------------------------------------------------------
  // Version parsing and strategy choice
  // ---------------------------------------------------------------------

  datatype SemVer = SemVer(major: nat, minor: nat, patch: nat)

  /** A `\d+` group at `i`: its decimal value and the index after it. */
  function ReadNumber(s: string, i: nat): (r: Option<(nat, nat)>)
    requires i <= |s|
    ensures r.Some? ==> i < r.value.1 <= |s|
  {
    var n := DigitRun(s, i);
    if n == 0 then None else Some((DecimalValue(s[i..i + n]), i + n))
  }

  /** A `\d+` group followed by a literal '.' at `i`. */
  function ReadNumberDot(s: string, i: nat): (r: Option<(nat, nat)>)
    requires i <= |s|
    ensures r.Some? ==> i < r.value.1 <= |s|
  {
    match ReadNumber(s, i)
    case None => None
    case Some(m) => if m.1 < |s| && s[m.1] == '.' then Some((m.0, m.1 + 1)) else None
  }

  /** `parseVersion`: the anchored pattern `^(\d+)\.(\d+)\.(\d+)` read by a
      scanner; anything after the third number is ignored. */
  function ParseVersion(v: Option<GitlabVersion>): (r: Option<SemVer>)
    ensures v.None? || v.value.version == "" ==> r.None?
  {
    if v.None? || v.value.version == "" then None else ParseMajor(v.value.version)
  }

  /** The first group and its dot, then the rest. */
  function ParseMajor(s: string): Option<SemVer> {
    match ReadNumberDot(s, 0)
    case None => None
    case Some(x) => ParseMinor(s, x.0, x.1)
  }

  /** The second group and its dot at `i`, then the third group. */
  function ParseMinor(s: string, major: nat, i: nat): Option<SemVer>
    requires i <= |s|
  {
    match ReadNumberDot(s, i)
    case None => None
    case Some(y) => ParsePatch(s, major, y.0, y.1)
  }

  /** The third group at `j`. */
  function ParsePatch(s: string, major: nat, minor: nat, j: nat): Option<SemVer>
    requires j <= |s|
  {
    match ReadNumber(s, j)
    case None => None
    case Some(z) => Some(SemVer(major, minor, z.0))
  }

  /** `s` is `d1.d2.d3` followed by a suffix that does not continue `d3`. */
  predicate VersionShaped(s: string, d1: string, d2: string, d3: string, rest: string) {
    && |d1| > 0 && |d2| > 0 && |d3| > 0
    && AllDigits(d1) && AllDigits(d2) && AllDigits(d3)
    && (rest == [] || !IsDigit(rest[0]))
    && s == d1 + "." + d2 + "." + d3 + rest
  }

  lemma {:induction false} DigitRunOf(s: string, i: nat, d: string)
    requires i + |d| <= |s| && s[i..i + |d|] == d && AllDigits(d)
    requires i + |d| == |s| || !IsDigit(s[i + |d|])
    ensures DigitRun(s, i) == |d|
    decreases |d|
  {
    if d != [] {
      assert s[i] == d[0];
      assert s[i + 1..i + 1 + |d[1..]|] == d[1..];
      DigitRunOf(s, i + 1, d[1..]);
    }
  }

  /** Reading the digit string `d` placed at `i`, when no digit follows. */
  lemma ReadNumberOf(s: string, i: nat, d: string)
    requires |d| > 0 && AllDigits(d)
    requires i + |d| <= |s| && s[i..i + |d|] == d
    requires i + |d| == |s| || !IsDigit(s[i + |d|])
    ensures ReadNumber(s, i) == Some((DecimalValue(d), i + |d|))
  {
    DigitRunOf(s, i, d);
  }

  /** Any three non-empty digit strings joined by dots parse to their decimal
      values, whatever suffix follows. */
  lemma ParseVersionRoundTrip(s: string, d1: string, d2: string, d3: string, rest: string, revision: string)
    requires VersionShaped(s, d1, d2, d3, rest)
    ensures ParseVersion(Some(GitlabVersion(s, revision)))
         == Some(SemVer(DecimalValue(d1), DecimalValue(d2), DecimalValue(d3)))
  {
    VersionSlices(s, d1, d2, d3, rest);
    ParseVersionAt(s, revision, d1, d2, d3, |d1| + 1, |d1| + |d2| + 2);
  }

  lemma VersionSlices(s: string, d1: string, d2: string, d3: string, rest: string)
    requires VersionShaped(s, d1, d2, d3, rest)
    ensures |d1| + |d2| + 2 + |d3| <= |s|
    ensures s[0..|d1|] == d1 && s[|d1|] == '.'
    ensures s[|d1| + 1..|d1| + 1 + |d2|] == d2 && s[|d1| + 1 + |d2|] == '.'
    ensures s[|d1| + |d2| + 2..|d1| + |d2| + 2 + |d3|] == d3
    ensures |d1| + |d2| + 2 + |d3| == |s| || !IsDigit(s[|d1| + |d2| + 2 + |d3|])
  {
    if rest != [] {
      assert s[|d1| + |d2| + 2 + |d3|] == rest[0];
    }
  }

  /** The same statement with the three groups given by their places. */
  lemma ParseVersionAt(s: string, revision: string, d1: string, d2: string, d3: string, i2: nat, i3: nat)
    requires |d1| > 0 && |d2| > 0 && |d3| > 0 && AllDigits(d1) && AllDigits(d2) && AllDigits(d3)
    requires i2 == |d1| + 1 && i3 == i2 + |d2| + 1 && i3 + |d3| <= |s|
    requires s[0..|d1|] == d1 && s[|d1|] == '.'
    requires s[i2..i2 + |d2|] == d2 && s[i2 + |d2|] == '.'
    requires s[i3..i3 + |d3|] == d3
    requires i3 + |d3| == |s| || !IsDigit(s[i3 + |d3|])
    ensures ParseVersion(Some(GitlabVersion(s, revision)))
         == Some(SemVer(DecimalValue(d1), DecimalValue(d2), DecimalValue(d3)))
  {
    PatchAt(s, DecimalValue(d1), DecimalValue(d2), i3, d3);
    MinorAt(s, DecimalValue(d1), i2, d2, i3, SemVer(DecimalValue(d1), DecimalValue(d2), DecimalValue(d3)));
    ReadNumberDotOf(s, 0, d1, DecimalValue(d1), i2);
  }

  lemma PatchAt(s: string, major: nat, minor: nat, j: nat, d: string)
    requires |d| > 0 && AllDigits(d)
    requires j + |d| <= |s| && s[j..j + |d|] == d
    requires j + |d| == |s| || !IsDigit(s[j + |d|])
    ensures ParsePatch(s, major, minor, j) == Some(SemVer(major, minor, DecimalValue(d)))
  {
    ReadNumberOf(s, j, d);
  }

  lemma MinorAt(s: string, major: nat, i: nat, d: string, j: nat, v: SemVer)
    requires |d| > 0 && AllDigits(d) && j == i + |d| + 1 && j <= |s|
    requires s[i..i + |d|] == d && s[i + |d|] == '.'
    requires ParsePatch(s, major, DecimalValue(d), j) == Some(v)
    ensures ParseMinor(s, major, i) == Some(v)
  {
    ReadNumberDotOf(s, i, d, DecimalValue(d), j);
  }

  /** Reading the digit string `d` placed at `i` and followed by a dot. */
  lemma ReadNumberDotOf(s: string, i: nat, d: string, v: nat, next: nat)
    requires |d| > 0 && AllDigits(d) && v == DecimalValue(d) && next == i + |d| + 1
    requires i + |d| < |s| && s[i..i + |d|] == d && s[i + |d|] == '.'
    ensures ReadNumberDot(s, i) == Some((v, next))
  {
    ReadNumberOf(s, i, d);
  }

  /** Conversely, a parsed version comes from exactly such a string. */
  lemma ParseVersionShape(v: Option<GitlabVersion>)
    requires ParseVersion(v).Some?
    ensures exists d1, d2, d3, rest :: VersionShaped(v.value.version, d1, d2, d3, rest)
              && ParseVersion(v).value == SemVer(DecimalValue(d1), DecimalValue(d2), DecimalValue(d3))
  {
    var s := v.value.version;
    var x := ReadNumberDot(s, 0).value;
    var y := ReadNumberDot(s, x.1).value;
    var z := ReadNumber(s, y.1).value;
    var p1, p2, p3 := x.1, y.1, z.1;
    ReadNumberDotShape(s, 0, x);
    ReadNumberDotShape(s, p1, y);
    ReadNumberShape(s, p2, z);
    ShapedAt(s, p1, p2, p3);
    assert ParseVersion(v).value == SemVer(x.0, y.0, z.0);
  }

  /** The pieces between the reads' end positions. */
  lemma ShapedAt(s: string, p1: nat, p2: nat, p3: nat)
    requires 1 < p1 && p1 + 1 < p2 < p3 <= |s| && s[p1 - 1] == '.' && s[p2 - 1] == '.'
    requires AllDigits(s[0..p1 - 1]) && AllDigits(s[p1..p2 - 1]) && AllDigits(s[p2..p3])
    requires p3 == |s| || !IsDigit(s[p3])
    ensures VersionShaped(s, s[0..p1 - 1], s[p1..p2 - 1], s[p2..p3], s[p3..])
  {
    JoinAt(s, p1, p2, p3);
    if p3 < |s| {
      assert s[p3..][0] == s[p3];
    }
  }

  /** What a successful read followed by a dot consumed. */
  lemma ReadNumberDotShape(s: string, i: nat, m: (nat, nat))
    requires i <= |s| && ReadNumberDot(s, i) == Some(m)
    ensures i + 1 < m.1 <= |s| && s[m.1 - 1] == '.'
    ensures AllDigits(s[i..m.1 - 1]) && m.0 == DecimalValue(s[i..m.1 - 1])
  {
    ReadNumberShape(s, i, ReadNumber(s, i).value);
  }

  /** What a successful read consumed: a maximal run of digits. */
  lemma ReadNumberShape(s: string, i: nat, m: (nat, nat))
    requires i <= |s| && ReadNumber(s, i) == Some(m)
    ensures i < m.1 <= |s| && AllDigits(s[i..m.1]) && m.0 == DecimalValue(s[i..m.1])
    ensures m.1 == |s| || !IsDigit(s[m.1])
  {
  }

  /** A string cut at two dots. */
  lemma JoinAt(s: string, p1: nat, p2: nat, p3: nat)
    requires 0 < p1 < p2 <= p3 <= |s| && s[p1 - 1] == '.' && s[p2 - 1] == '.'
    ensures s == s[0..p1 - 1] + "." + s[p1..p2 - 1] + "." + s[p2..p3] + s[p3..]
  {
    assert s[p1 - 1..p1] == ".";
    assert s[p2 - 1..p2] == ".";
    assert s == s[0..p1 - 1] + s[p1 - 1..p1] + s[p1..p2 - 1] + s[p2 - 1..p2] + s[p2..p3] + s[p3..];
  }

  datatype Pagination = Offset | Keyset

  /** `getAllProjects`: offset pagination when the version is unknown or
      both `major < 13` and `minor < 1`, keyset pagination otherwise. */
  function ChoosePagination(version: Option<GitlabVersion>): Pagination {
    var ver := ParseVersion(version);
    if ver.None? || (ver.value.major < 13 && ver.value.minor < 1) then Offset else Keyset
  }

  /** The choice in terms of the version string's three numbers. */
  lemma PaginationByVersion(s: string, d1: string, d2: string, d3: string, rest: string, revision: string)
    requires VersionShaped(s, d1, d2, d3, rest)
    ensures ChoosePagination(Some(GitlabVersion(s, revision)))
         == (if DecimalValue(d1) < 13 && DecimalValue(d2) < 1 then Offset else Keyset)
  {
    ParseVersionRoundTrip(s, d1, d2, d3, rest, revision);
  }

  /** An unknown or empty version selects offset pagination. */
  lemma UnknownVersionUsesOffset(revision: string)
    ensures ChoosePagination(None) == Offset
    ensures ChoosePagination(Some(GitlabVersion("", revision))) == Offset
  {
  }

  /** Both clauses of the version test must hold for offset pagination:
      12.5.0 has a non-zero minor and therefore uses keyset pagination. */
  lemma Version12_5UsesKeyset()
    ensures ChoosePagination(Some(GitlabVersion("12.5.0", "abc"))) == Keyset
  {
    Example("12.5.0", "12", "5", "0", "");
  }

  lemma Version12_0UsesOffset()
    ensures ChoosePagination(Some(GitlabVersion("12.0.3", "abc"))) == Offset
  {
    Example("12.0.3", "12", "0", "3", "");
  }

  /** A suffix after the third number is ignored. */
  lemma Version13UsesKeyset()
    ensures ChoosePagination(Some(GitlabVersion("13.0.0-ee", "abc"))) == Keyset
  {
    Example("13.0.0-ee", "13", "0", "0", "-ee");
  }

  lemma Example(s: string, d1: string, d2: string, d3: string, rest: string)
    requires |d1| > 0 && |d2| > 0 && |d3| > 0
    requires AllDigits(d1) && AllDigits(d2) && AllDigits(d3)
    requires rest == [] || !IsDigit(rest[0])
    requires s == d1 + "." + d2 + "." + d3 + rest
    ensures ChoosePagination(Some(GitlabVersion(s, "abc")))
         == (if DecimalValue(d1) < 13 && DecimalValue(d2) < 1 then Offset else Keyset)
  {
    PaginationByVersion(s, d1, d2, d3, rest, "abc");
  }

  // ---------------------------------------------------------------------
  // Page following
  // ---------------------------------------------------------------------

  /** Outcome of a page-following run. `OutOfPages` means the recursion asked
      for more replies than the given sequence holds: with a finite reply
      sequence this stands for a chain the server never ends. */
  datatype Fetch<T> = Fetched(items: seq<T>) | FetchFailed | OutOfPages

  /** Result order of both strategies: each step appends its own page after
      the result of the later pages, so the bodies come last page first. */
  function LastPageFirst<T>(bodies: seq<seq<T>>): seq<T> {
    Flatten(Reverse(bodies))
  }

  lemma LastPageFirstCons<T>(b: seq<T>, bs: seq<seq<T>>)
    ensures LastPageFirst([b] + bs) == LastPageFirst(bs) + b
  {
    assert ([b] + bs)[1..] == bs;
    assert Reverse([b] + bs) == Reverse(bs) + [b];
    FlattenConcat(Reverse(bs), [b]);
    assert Flatten([b]) == b + Flatten([]);
  }

  lemma LastPageFirstSnoc<T>(bs: seq<seq<T>>, b: seq<T>)
    ensures LastPageFirst(bs + [b]) == b + LastPageFirst(bs)
  {
    var r := Reverse(bs + [b]);
    assert r == [b] + Reverse(bs);
    assert r[1..] == Reverse(bs);
  }

  /** The merged list is as long as all pages together. */
  lemma LastPageFirstLength<T>(bodies: seq<seq<T>>)
    ensures |LastPageFirst(bodies)| == TotalLength(bodies)
  {
    FlattenLength(Reverse(bodies));
    TotalLengthReverse(bodies);
  }

  /** Reply to one offset request: the body and the raw `x-total-pages`
      header, or a failed request. */
  datatype OffsetReply<T> = OffsetPage(body: seq<T>, totalPages: Option<string>) | OffsetError

  function OffsetBodies<T>(rs: seq<OffsetReply<T>>): (r: seq<seq<T>>)
    ensures |r| == |rs|
  {
    if rs == [] then []
    else [if rs[0].OffsetPage? then rs[0].body else []] + OffsetBodies(rs[1..])
  }

  /** `!totalPages || page === totalPages` on the parsed header: NaN and 0
      are falsy. */
  predicate OffsetStops<T>(reply: OffsetReply<T>, page: int)
    requires reply.OffsetPage?
  {
    var total := ParseIntDecimal(reply.totalPages);
    total.None? || total.value == 0 || total.value == page
  }

  /** `req(page)` of the offset recursion; errors are not caught. */
  function OffsetFrom<T>(replies: seq<OffsetReply<T>>, page: nat): Fetch<T>
    requires page >= 1
    decreases |replies| + 1 - page
  {
    if page > |replies| then OutOfPages
    else match replies[page - 1]
      case OffsetError => FetchFailed
      case OffsetPage(body, _) =>
        if OffsetStops(replies[page - 1], page) then Fetched(body)
        else
          var later := OffsetFrom(replies, page + 1);
          if later.Fetched? then Fetched(later.items + body) else later
  }

  /** `getAllProjectsWithOffsetPagination`: the recursion starts at page 1. */
  function OffsetPagination<T>(replies: seq<OffsetReply<T>>): Fetch<T> {
    OffsetFrom(replies, 1)
  }

  /** If pages `page..k-1` ask for more and page `k` stops, the run returns
      the bodies of pages `page..k` last page first, and no reply after
      page `k` is used. */
  lemma {:induction false} OffsetChain<T>(replies: seq<OffsetReply<T>>, page: nat, k: nat)
    requires 1 <= page <= k <= |replies|
    requires forall j :: page - 1 <= j < k - 1 ==> replies[j].OffsetPage? && !OffsetStops(replies[j], j + 1)
    requires replies[k - 1].OffsetPage? && OffsetStops(replies[k - 1], k)
    ensures OffsetFrom(replies, page) == Fetched(LastPageFirst(OffsetBodies(replies[page - 1..k])))
    ensures OffsetFrom(replies, page) == OffsetFrom(replies[..k], page)
    decreases k - page
  {
    var window := replies[page - 1..k];
    assert window[0] == replies[page - 1];
    assert window[1..] == replies[page..k];
    assert OffsetBodies(window) == [replies[page - 1].body] + OffsetBodies(replies[page..k]);
    assert replies[..k][page - 1] == replies[page - 1];
    if page == k {
      assert OffsetBodies(replies[page..k]) == [];
      LastPageFirstCons(replies[page - 1].body, []);
    } else {
      OffsetChain(replies, page + 1, k);
      LastPageFirstCons(replies[page - 1].body, OffsetBodies(replies[page..k]));
    }
  }

  /** With every page reporting the same total `T`, exactly pages `1..T` are
      fetched and merged last page first. */
  lemma OffsetConstantTotal<T>(replies: seq<OffsetReply<T>>, total: nat)
    requires 1 <= total <= |replies|
    requires forall j :: 0 <= j < total ==>
               replies[j].OffsetPage? && replies[j].totalPages == Some(NatToString(total))
    ensures OffsetPagination(replies) == Fetched(LastPageFirst(OffsetBodies(replies[..total])))
    ensures OffsetPagination(replies) == OffsetPagination(replies[..total])
  {
    ParseIntOfNatToString(total);
    OffsetChain(replies, 1, total);
    assert replies[0..total] == replies[..total];
  }

  /** A failed page fails the whole offset run. */
  lemma {:induction false} OffsetErrorFails<T>(replies: seq<OffsetReply<T>>, page: nat, k: nat)
    requires 1 <= page <= k <= |replies|
    requires forall j :: page - 1 <= j < k - 1 ==> replies[j].OffsetPage? && !OffsetStops(replies[j], j + 1)
    requires replies[k - 1].OffsetError?
    ensures OffsetFrom(replies, page) == FetchFailed
    decreases k - page
  {
    if page < k {
      OffsetErrorFails(replies, page + 1, k);
    }
  }

  /** An absent, non-numeric or zero header stops after the current page. */
  lemma TotalPagesHeaderExamples()
    ensures ParseIntDecimal(None) == None
    ensures ParseIntDecimal(Some("")) == None
    ensures ParseIntDecimal(Some("abc")) == None
    ensures ParseIntDecimal(Some("0")) == Some(0)
    ensures ParseIntDecimal(Some("7")) == Some(7)
  {
    assert LeadingSpace("abc") == 0;
    assert DigitRun("abc", 0) == 0;
    ParseIntOfNatToString(0);
    ParseIntOfNatToString(7);
    assert NatToString(0) == "0";
    assert NatToString(7) == "7";
  }

  /** Reply to one keyset request: the body with the `Link` and `Links`
      headers, or a failed request. */
  datatype KeysetReply<T> = KeysetPage(body: seq<T>, link: Option<string>, links: Option<string>) | KeysetError

  /** `resp.headers.get('Link') || resp.headers.get('Links')`: an absent or
      empty `Link` falls back to `Links`. */
  function LinkHeader(link: Option<string>, links: Option<string>): (r: Option<string>)
    ensures r == link || r == links
    ensures link.Some? && link.value != "" ==> r == link
  {
    if link.Some? && link.value != "" then link else links
  }

  /** The page and next link one keyset step works with; the `catchError`
      turns a failed request into an empty page without a next link. */
  function KeysetStep<T>(reply: KeysetReply<T>): (r: (seq<T>, Option<string>))
    ensures reply.KeysetError? ==> r == ([], None)
  {
    match reply
    case KeysetError => ([], None)
    case KeysetPage(body, link, links) => (body, ParseLink(LinkHeader(link, links)))
  }

  function KeysetBodies<T>(rs: seq<KeysetReply<T>>): (r: seq<seq<T>>)
    ensures |r| == |rs|
  {
    if rs == [] then [] else [KeysetStep(rs[0]).0] + KeysetBodies(rs[1..])
  }

  /** `req(url)` of the keyset recursion: reply `i` answers the URL taken
      from reply `i - 1`. Errors are caught, so a run never fails. */
  function KeysetFrom<T>(replies: seq<KeysetReply<T>>, i: nat): (r: Fetch<T>)
    requires i <= |replies|
    ensures !r.FetchFailed?
    decreases |replies| - i
  {
    if i == |replies| then OutOfPages
    else
      var step := KeysetStep(replies[i]);
      if step.1.None? then Fetched(step.0)
      else
        var later := KeysetFrom(replies, i + 1);
        if later.Fetched? then Fetched(later.items + step.0) else later
  }

  /** `getAllProjectsWithKeysetPagination`. */
  function KeysetPagination<T>(replies: seq<KeysetReply<T>>): Fetch<T> {
    KeysetFrom(replies, 0)
  }

  /** If replies `i..k-1` carry a next link and reply `k` does not, the run
      returns the pages `i..k` last page first and uses no later reply. */
  lemma {:induction false} KeysetChain<T>(replies: seq<KeysetReply<T>>, i: nat, k: nat)
    requires i <= k < |replies|
    requires forall j :: i <= j < k ==> KeysetStep(replies[j]).1.Some?
    requires KeysetStep(replies[k]).1.None?
    ensures KeysetFrom(replies, i) == Fetched(LastPageFirst(KeysetBodies(replies[i..k + 1])))
    ensures KeysetFrom(replies, i) == KeysetFrom(replies[..k + 1], i)
    decreases k - i
  {
    var window := replies[i..k + 1];
    assert window[0] == replies[i];
    assert window[1..] == replies[i + 1..k + 1];
    assert replies[..k + 1][i] == replies[i];
    if i == k {
      assert KeysetBodies(replies[i + 1..k + 1]) == [];
      LastPageFirstCons(KeysetStep(replies[i]).0, []);
    } else {
      KeysetChain(replies, i + 1, k);
      LastPageFirstCons(KeysetStep(replies[i]).0, KeysetBodies(replies[i + 1..k + 1]));
    }
  }

  /** A failed keyset request ends the run: the result is exactly the pages
      fetched before it, and nothing after it is requested. */
  lemma KeysetFailureTruncates<T>(replies: seq<KeysetReply<T>>, k: nat)
    requires k < |replies|
    requires forall j :: 0 <= j < k ==> KeysetStep(replies[j]).1.Some?
    requires replies[k].KeysetError?
    ensures KeysetPagination(replies) == Fetched(LastPageFirst(KeysetBodies(replies[..k])))
    ensures KeysetPagination(replies) == KeysetPagination(replies[..k + 1])
  {
    KeysetChain(replies, 0, k);
    assert replies[0..k + 1] == replies[..k] + [replies[k]];
    KeysetBodiesSnoc(replies[..k], replies[k]);
    LastPageFirstSnoc(KeysetBodies(replies[..k]), []);
  }

  lemma KeysetBodiesSnoc<T>(rs: seq<KeysetReply<T>>, x: KeysetReply<T>)
    ensures KeysetBodies(rs + [x]) == KeysetBodies(rs) + [KeysetStep(x).0]
  {
    if rs != [] {
      assert (rs + [x])[1..] == rs[1..] + [x];
      KeysetBodiesSnoc(rs[1..], x);
    } else {
      assert rs + [x] == [x];
    }
  }

  // ---------------------------------------------------------------------
  // Link header
  // ---------------------------------------------------------------------

  /** The literal text between the captured URL and the rel word. */
  const RelOpen: string := ">; rel=\""

  /** `>; rel="\w*"` matches at `q`. */
  predicate ClosesAt(s: string, q: int) {
    && 0 <= q <= |s|
    && StartsWith(s[q..], RelOpen)
    && q + 8 + WordRun(s, q + 8) < |s|
    && s[q + 8 + WordRun(s, q + 8)] == '"'
  }

  /** No line terminator in `s[a..b]`: the regular-expression `.` cannot
      cross one. */
  predicate NoBreak(s: string, a: int, b: int)
    requires 0 <= a <= b <= |s|
  {
    forall k :: a <= k < b ==> !IsLineTerminator(s[k])
  }

  /** `/<(.*)>; rel="(\w*)"/` matches with '<' at `p` and the capture
      ending at `q`. */
  predicate MatchAt(s: string, p: int, q: int) {
    0 <= p < q <= |s| && s[p] == '<' && NoBreak(s, p + 1, q) && ClosesAt(s, q)
  }

  /** The match a backtracking engine reports: leftmost start, and for that
      start the longest capture. */
  ghost predicate Preferred(s: string, p: int, q: int) {
    forall p2, q2 :: MatchAt(s, p2, q2) ==> p < p2 || (p == p2 && q2 <= q)
  }

  function BreakFrom(s: string, i: nat): (e: nat)
    requires i <= |s|
    ensures i <= e <= |s| && NoBreak(s, i, e)
    ensures e < |s| ==> IsLineTerminator(s[e])
    decreases |s| - i
  {
    if i == |s| || IsLineTerminator(s[i]) then i else BreakFrom(s, i + 1)
  }

  function LastCloseIn(s: string, lo: nat, hi: nat): (r: Option<nat>)
    requires lo <= hi <= |s|
    ensures r.Some? ==> lo <= r.value <= hi && ClosesAt(s, r.value)
    ensures r.Some? ==> forall q :: r.value < q <= hi ==> !ClosesAt(s, q)
    ensures r.None? ==> forall q :: lo <= q <= hi ==> !ClosesAt(s, q)
    decreases hi - lo
  {
    if ClosesAt(s, hi) then Some(hi)
    else if hi == lo then None
    else LastCloseIn(s, lo, hi - 1)
  }

  /** A line-terminator-free stretch from `i` cannot pass the first line
      terminator at `e`. */
  lemma BreakBound(s: string, i: nat, e: nat, q: nat)
    requires i <= e <= |s| && i <= q <= |s| && NoBreak(s, i, q)
    requires e < |s| ==> IsLineTerminator(s[e])
    ensures q <= e
  {
  }

  /** Scans for the leftmost '<' from which a match exists. */
  function FindLink(s: string, p: nat): (r: Option<(nat, nat)>)
    requires p <= |s|
    ensures r.Some? ==> p <= r.value.0 && MatchAt(s, r.value.0, r.value.1)
    ensures r.Some? ==> forall p2, q2 :: p <= p2 && MatchAt(s, p2, q2) ==>
                          r.value.0 < p2 || (r.value.0 == p2 && q2 <= r.value.1)
    ensures r.None? ==> forall p2, q2 :: p <= p2 ==> !MatchAt(s, p2, q2)
    decreases |s| - p
  {
    if p == |s| then None
    else if s[p] != '<' then FindLink(s, p + 1)
    else
      var e := BreakFrom(s, p + 1);
      forall q | MatchAt(s, p, q) ensures q <= e {
        BreakBound(s, p + 1, e, q);
      }
      match LastCloseIn(s, p + 1, e)
      case Some(q) =>
        assert NoBreak(s, p + 1, q);
        Some((p, q))
      case None => FindLink(s, p + 1)
  }

  /** `parseLink`: the text captured by `(.*)`, or `None` for a missing
      header or a header without a match. The rel word is never looked at. */
  function ParseLink(header: Option<string>): (r: Option<string>)
    ensures header.None? ==> r.None?
    ensures header.Some? ==> (r.None? <==> forall p, q :: !MatchAt(header.value, p, q))
    ensures r.Some? ==> exists p, q :: MatchAt(header.value, p, q) && Preferred(header.value, p, q)
                                       && r.value == header.value[p + 1..q]
  {
    if header.None? then None
    else
      var s := header.value;
      match FindLink(s, 0)
      case None => None
      case Some(m) =>
        assert MatchAt(s, m.0, m.1) && Preferred(s, m.0, m.1);
        Some(s[m.0 + 1..m.1])
  }

  lemma {:induction false} WordRunOf(s: string, i: nat, w: string)
    requires i + |w| <= |s| && s[i..i + |w|] == w && AllWordChars(w)
    requires i + |w| == |s| || !IsWordChar(s[i + |w|])
    ensures WordRun(s, i) == |w|
    decreases |w|
  {
    if w != [] {
      assert s[i] == w[0];
      assert s[i + 1..i + 1 + |w[1..]|] == w[1..];
      WordRunOf(s, i + 1, w[1..]);
    }
  }

  /** A header `<u>; rel="w"` yields `u` for every word `w` and every `u`
      on one line, even when `u` itself contains `>; rel="…"`. */
  lemma ParseLinkCapture(u: string, w: string)
    requires forall i :: 0 <= i < |u| ==> !IsLineTerminator(u[i])
    requires AllWordChars(w)
    ensures ParseLink(Some("<" + u + RelOpen + w + "\"")) == Some(u)
  {
    var s := "<" + u + RelOpen + w + "\"";
    CaptureMatches(s, u, w);
    ParseLinkAt(s, |u| + 1);
    CaptureSlice(s, u, w);
  }

  lemma CaptureSlice(s: string, u: string, w: string)
    requires s == "<" + u + RelOpen + w + "\""
    ensures s[1..|u| + 1] == u
  {
    assert s == "<" + u + (RelOpen + w + "\"");
  }

  /** A match from the first character with no closing after it is the one
      reported. */
  lemma ParseLinkAt(s: string, q0: int)
    requires MatchAt(s, 0, q0)
    requires forall q :: q0 < q <= |s| ==> !ClosesAt(s, q)
    ensures ParseLink(Some(s)) == Some(s[1..q0])
  {
    var r := ParseLink(Some(s));
    var p, q :| MatchAt(s, p, q) && Preferred(s, p, q) && r.value == s[p + 1..q];
    assert p == 0;
    assert q == q0;
  }

  lemma CaptureMatches(s: string, u: string, w: string)
    requires s == "<" + u + RelOpen + w + "\""
    requires forall i :: 0 <= i < |u| ==> !IsLineTerminator(u[i])
    requires AllWordChars(w)
    ensures MatchAt(s, 0, |u| + 1)
    ensures forall q :: |u| + 1 < q <= |s| ==> !ClosesAt(s, q)
  {
    CaptureCloses(s, u, w);
    CaptureOneLine(s, u, w);
    forall q | |u| + 1 < q <= |s| ensures !ClosesAt(s, q) {
      if q < |s| {
        NotCloseChar(s, u, w, q);
      }
    }
  }

  lemma CaptureCloses(s: string, u: string, w: string)
    requires s == "<" + u + RelOpen + w + "\""
    requires AllWordChars(w)
    ensures ClosesAt(s, |u| + 1)
  {
    var q0 := |u| + 1;
    assert s[q0..] == RelOpen + w + "\"";
    assert s[q0 + 8..q0 + 8 + |w|] == w;
    WordRunOf(s, q0 + 8, w);
  }

  lemma CaptureOneLine(s: string, u: string, w: string)
    requires s == "<" + u + RelOpen + w + "\""
    requires forall i :: 0 <= i < |u| ==> !IsLineTerminator(u[i])
    ensures NoBreak(s, 1, |u| + 1)
  {
    forall k | 1 <= k < |u| + 1 ensures !IsLineTerminator(s[k]) {
      assert s[k] == u[k - 1];
    }
  }

  lemma NotCloseChar(s: string, u: string, w: string, q: nat)
    requires s == "<" + u + RelOpen + w + "\""
    requires AllWordChars(w)
    requires |u| + 1 < q < |s|
    ensures !ClosesAt(s, q)
  {
    var q0 := |u| + 1;
    if q < q0 + 8 {
      assert s[q] == RelOpen[q - q0];
    } else if q < q0 + 8 + |w| {
      assert s[q] == w[q - q0 - 8];
    } else {
      assert s[q] == '"';
    }
    assert s[q] != '>';
    assert |s[q..]| > 0 && s[q..][0] == s[q];
  }

  /** The greedy capture runs to the last `>; rel="…"` on the line, so a
      two-link header yields one string spanning both links. */
  lemma ParseLinkGreedyExample()
    ensures ParseLink(Some("<a>; rel=\"prev\", <b>; rel=\"next\"")) == Some("a>; rel=\"prev\", <b")
  {
    var u := "a>; rel=\"prev\", <b";
    GreedyExampleSplit(u);
    ParseLinkCapture(u, "next");
  }

  lemma GreedyExampleSplit(u: string)
    requires u == "a>; rel=\"prev\", <b"
    ensures "<a>; rel=\"prev\", <b>; rel=\"next\"" == "<" + u + RelOpen + "next" + "\""
  {
  }

  // ---------------------------------------------------------------------
  // Query options and row tagging
  // ---------------------------------------------------------------------

  /** Caller options; `None` fields are absent keys. */
  datatype ProjectRequestOptions = ProjectRequestOptions(membership: Option<bool>, archived: Option<bool>)

  /** `${b}` of a boolean. */
  function BoolText(b: bool): string {
    if b then "true" else "false"
  }

  /** The caller's keys, stringified. */
  function CallerParams(opts: Option<ProjectRequestOptions>): map<string, string> {
    if opts.None? then map[]
    else
      var o := opts.value;
      (if o.membership.Some? then map["membership" := BoolText(o.membership.value)] else map[])
      + (if o.archived.Some? then map["archived" := BoolText(o.archived.value)] else map[])
  }

  /** `getProjOptions`: the caller's options spread over the default
      `{membership: true}`, every value stringified. */
  function GetProjOptions(opts: Option<ProjectRequestOptions>): (r: map<string, string>)
    ensures r.Keys == {"membership"} + CallerParams(opts).Keys
    ensures forall k :: k in CallerParams(opts) ==> r[k] == CallerParams(opts)[k]
    ensures r["membership"] == (if opts.Some? && opts.value.membership.Some? then BoolText(opts.value.membership.value) else "true")
    ensures "archived" in r <==> opts.Some? && opts.value.archived.Some?
  {
    map["membership" := "true"] + CallerParams(opts)
  }

  /** Query of the first keyset request. */
  function KeysetParams(opts: Option<ProjectRequestOptions>): (r: map<string, string>)
    ensures r.Keys == {"simple", "per_page", "order_by", "pagination"} + GetProjOptions(opts).Keys
    ensures r["simple"] == "true" && r["per_page"] == "50" && r["order_by"] == "id" && r["pagination"] == "keyset"
    ensures forall k :: k in GetProjOptions(opts) ==> r[k] == GetProjOptions(opts)[k]
  {
    map["simple" := "true", "per_page" := "50", "order_by" := "id", "pagination" := "keyset"] + GetProjOptions(opts)
  }

  /** Query of the offset request for `page`. */
  function OffsetParams(page: nat, opts: Option<ProjectRequestOptions>): (r: map<string, string>)
    ensures r.Keys == {"simple", "per_page", "page", "order_by"} + GetProjOptions(opts).Keys
    ensures r["simple"] == "true" && r["per_page"] == "50" && r["order_by"] == "id"
    ensures r["page"] == NatToString(page)
    ensures forall k :: k in GetProjOptions(opts) ==> r[k] == GetProjOptions(opts)[k]
  {
    map["simple" := "true", "per_page" := "50", "page" := NatToString(page), "order_by" := "id"] + GetProjOptions(opts)
  }

  /** `getAllProjects`: keyset runs never fail, because their requests'
      errors are caught; offset runs propagate a failed page. */
  function GetAllProjects(config: GitlabConfig, offsetReplies: seq<OffsetReply<Project>>,
                          keysetReplies: seq<KeysetReply<Project>>): (r: Fetch<Project>)
    ensures ChoosePagination(config.version) == Keyset ==> !r.FetchFailed?
    ensures ChoosePagination(config.version) == Offset ==> r == OffsetPagination(offsetReplies)
  {
    match ChoosePagination(config.version)
    case Offset => OffsetPagination(offsetReplies)
    case Keyset => KeysetPagination(keysetReplies)
  }

  /** `searchProjectBlobs`: every row is tagged with the instance id; count
      and order are kept and nothing else is set. */
  function TagRows(config: GitlabConfig, raws: seq<SearchResultRaw>): (r: seq<RichSearchResult>)
    ensures |r| == |raws|
    ensures forall i :: 0 <= i < |r| ==> r[i].raw == raws[i] && r[i].gitlabID == Some(config.id)
    ensures forall i :: 0 <= i < |r| ==> r[i].projectURL.None? && r[i].gitlabURL.None? && r[i].projectName.None?
  {
    if raws == [] then []
    else [RichSearchResult(raws[0], Some(config.id), None, None, None)] + TagRows(config, raws[1..])
  }
}
