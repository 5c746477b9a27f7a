/** Paginated extraction of Paysage structures that carry no ROR identifier
    (`getStructuresWithoutRor`). The remote collection is a finite sequence of
    structures; page `p` of size `size` is the slice starting at offset
    `(p - 1) * size`, clamped to the end of the collection. */
module Extraction {
  import opened Basics

  /** `PAYSAGE_PAGE_LIMIT`: ceiling on the number of pages fetched, 0 meaning none. */
  const DefaultPageLimit: nat := 10
  /** `PAYSAGE_PAGE_SIZE`: number of structures requested per page. */
  const DefaultPageSize: nat := 200

  const RorKind := "ror"
  const UrlPrefix := "https://paysage.enseignementsup-recherche.gouv.fr/structures/"
  const UrlSuffix := "/presentation"

  /** An external identifier of a structure, typed by `kind` ("ror", "wikidata", ...). */
  datatype Identifier = Identifier(kind: string, value: string)

  datatype CurrentName = CurrentName(officialName: Option<string>, usualName: Option<string>)

  /** A structure as the Paysage API returns it; a missing identifier list is the empty one. */
  datatype Structure = Structure(
    id: string,
    identifiers: seq<Identifier>,
    displayName: Option<string>,
    currentName: Option<CurrentName>)

  /** The record built for a structure without ROR identifier; `ror` and `rorName`
      are absent until resolution sets them. */
  datatype Record = Record(
    paysageId: string,
    paysageUrl: string,
    paysageNames: seq<string>,
    ror: Option<string>,
    rorName: Option<string>)

  // ---------------------------------------------------------------------------
  // Filtering on identifiers

  /** The identifiers of kind "ror", in order (`identifiers.filter(type === 'ror')`). */
  function RorIdentifiers(ids: seq<Identifier>): (r: seq<Identifier>)
    ensures |r| <= |ids|
    ensures forall x :: x in r <==> x in ids && x.kind == RorKind
  {
    if ids == [] then []
    else (if ids[0].kind == RorKind then [ids[0]] else []) + RorIdentifiers(ids[1..])
  }

  /** A structure is kept exactly when its list of ROR identifiers is empty. */
  predicate WithoutRor(s: Structure)
  {
    |RorIdentifiers(s.identifiers)| == 0
  }

  lemma {:induction false} NoRorIdentifiers(ids: seq<Identifier>)
    ensures |RorIdentifiers(ids)| == 0 <==> forall i :: 0 <= i < |ids| ==> ids[i].kind != RorKind
  {
    if ids != [] {
      NoRorIdentifiers(ids[1..]);
      assert forall i :: 1 <= i < |ids| ==> ids[i] == ids[1..][i - 1];
    }
  }

  /** The keep test of the extraction, in terms of the structure itself: kept
      exactly when none of its identifiers has kind "ror". */
  lemma WithoutRorIff(s: Structure)
    ensures WithoutRor(s) <==> forall i :: 0 <= i < |s.identifiers| ==> s.identifiers[i].kind != RorKind
  {
    NoRorIdentifiers(s.identifiers);
  }

  // ---------------------------------------------------------------------------
  // Normalisation of one structure

  /** The presentation URL of a structure; the id can be read back from it. */
  function PaysageUrl(id: string): (u: string)
    ensures PaysageIdOf(u) == Some(id)
  {
    var u := UrlPrefix + id + UrlSuffix;
    assert u[..|UrlPrefix|] == UrlPrefix && u[|u| - |UrlSuffix|..] == UrlSuffix
        && u[|UrlPrefix|..|u| - |UrlSuffix|] == id;
    u
  }

  /** Inverse of PaysageUrl on the URLs it produces. */
  function PaysageIdOf(url: string): Option<string>
  {
    if |url| >= |UrlPrefix| + |UrlSuffix|
       && url[..|UrlPrefix|] == UrlPrefix
       && url[|url| - |UrlSuffix|..] == UrlSuffix
    then Some(url[|UrlPrefix|..|url| - |UrlSuffix|])
    else None
  }

  lemma PaysageIdOfSound(url: string, id: string)
    requires PaysageIdOf(url) == Some(id)
    ensures PaysageUrl(id) == url
  {
  }

  /** Distinct structures get distinct URLs. */
  lemma PaysageUrlInjective(a: string, b: string)
    requires PaysageUrl(a) == PaysageUrl(b)
    ensures a == b
  {
  }

  /** The values of `xs` that are truthy, in order (`.filter((x) => x)`). */
  function PresentValues(xs: seq<Option<string>>): (r: seq<string>)
    ensures |r| <= |xs|
    ensures forall n :: n in r <==> n != "" && Some(n) in xs
  {
    if xs == [] then []
    else (if Truthy(xs[0]) then [xs[0].value] else []) + PresentValues(xs[1..])
  }

  lemma {:induction false} PresentValuesAppend(a: seq<Option<string>>, b: seq<Option<string>>)
    ensures PresentValues(a + b) == PresentValues(a) + PresentValues(b)
  {
    if a != [] {
      assert (a + b)[0] == a[0] && (a + b)[1..] == a[1..] + b;
      PresentValuesAppend(a[1..], b);
    } else {
      assert a + b == b;
    }
  }

  function OfficialName(s: Structure): Option<string>
  {
    if s.currentName.Some? then s.currentName.value.officialName else None
  }

  function UsualName(s: Structure): Option<string>
  {
    if s.currentName.Some? then s.currentName.value.usualName else None
  }

  /** Name variants: display, official, usual, with absent or empty values dropped. */
  function PaysageNames(s: Structure): (r: seq<string>)
    ensures |r| <= 3
    ensures forall n :: n in r <==> n != "" && (Some(n) == s.displayName || Some(n) == OfficialName(s) || Some(n) == UsualName(s))
  {
    PresentValues([s.displayName, OfficialName(s), UsualName(s)])
  }

  /** The names come in the fixed order display, official, usual, each one kept
      exactly when it is a non-empty string. */
  lemma PaysageNamesOrder(s: Structure)
    ensures PaysageNames(s)
         == PresentValues([s.displayName]) + PresentValues([OfficialName(s)]) + PresentValues([UsualName(s)])
  {
    PresentValuesAppend([s.displayName], [OfficialName(s)]);
    PresentValuesAppend([s.displayName] + [OfficialName(s)], [UsualName(s)]);
    assert [s.displayName, OfficialName(s), UsualName(s)]
        == [s.displayName] + [OfficialName(s)] + [UsualName(s)];
  }

  /** Names are not deduplicated: when all three are given, all three are kept. */
  lemma PaysageNamesKeepDuplicates(s: Structure)
    requires Truthy(s.displayName) && Truthy(OfficialName(s)) && Truthy(UsualName(s))
    ensures PaysageNames(s) == [s.displayName.value, OfficialName(s).value, UsualName(s).value]
  {
    PaysageNamesOrder(s);
  }

  /** The record pushed for a structure without ROR identifier. */
  function ToRecord(s: Structure): (r: Record)
    ensures r.paysageId == s.id && PaysageIdOf(r.paysageUrl) == Some(r.paysageId)
    ensures r.paysageNames == PaysageNames(s)
    ensures r.ror == None && r.rorName == None
  {
    Record(s.id, PaysageUrl(s.id), PaysageNames(s), None, None)
  }

  // ---------------------------------------------------------------------------
  // One page

  /** The records a page contributes: one per structure without ROR identifier, in order. */
  function Candidates(page: seq<Structure>): seq<Record>
  {
    FilterMap(page, WithoutRor, ToRecord)
  }

  /** A record is pushed without `ror` and `rorName`: those are set only by resolution. */
  lemma CandidatesUnresolved(page: seq<Structure>)
    ensures forall x :: x in Candidates(page) ==> x.ror == None && x.rorName == None
  {
    forall x | x in Candidates(page)
      ensures x.ror == None && x.rorName == None
    {
      FilterMapMembership(page, WithoutRor, ToRecord, x);
    }
  }

  /** Splitting a stretch of the collection splits its candidates at the same point. */
  lemma CandidatesSplit(src: seq<Structure>, i: nat, j: nat, k: nat)
    requires i <= j <= k <= |src|
    ensures Candidates(src[i..k]) == Candidates(src[i..j]) + Candidates(src[j..k])
  {
    assert src[i..k] == src[i..j] + src[j..k];
    FilterMapAppend(src[i..j], src[j..k], WithoutRor, ToRecord);
  }

  /** The structures at offsets `skip .. skip + size` of the collection, clamped to its end. */
  function PageAt(src: seq<Structure>, skip: nat, size: nat): (page: seq<Structure>)
    requires size > 0
    ensures |page| <= size
    ensures |page| == size <==> skip + size <= |src|
    ensures |page| > 0 ==> skip + |page| <= |src|
  {
    if skip >= |src| then []
    else if skip + size <= |src| then src[skip..skip + size]
    else src[skip..]
  }

  // ---------------------------------------------------------------------------
  // All pages

  /** Offset of page `page` (counted from 1): the number of structures on the pages before it. */
  function Offset(page: nat, size: nat): nat
  {
    if page <= 1 then 0 else Offset(page - 1, size) + size
  }

  lemma {:induction false} OffsetIsProduct(page: nat, size: nat)
    requires page >= 1
    ensures Offset(page, size) == (page - 1) * size
  {
    if page > 1 {
      OffsetIsProduct(page - 1, size);
    }
  }

  /** Page `page` is followed by another request: below the ceiling and full. */
  predicate Continues(src: seq<Structure>, size: nat, pageLimit: nat, page: nat)
    requires size > 0
    ensures page >= 1 ==>
      (Continues(src, size, pageLimit, page) <==> (pageLimit == 0 || page < pageLimit) && Offset(page + 1, size) <= |src|)
  {
    (pageLimit == 0 || page < pageLimit) && |PageAt(src, Offset(page, size), size)| == size
  }

  /** Records extracted from page `page` onwards, following the recursion of the source. */
  function ExtractFrom(src: seq<Structure>, size: nat, pageLimit: nat, page: nat): (r: seq<Record>)
    requires size > 0 && page >= 1
    decreases |src| - Offset(page, size)
    ensures forall x :: x in r ==> x.ror == None && x.rorName == None
  {
    CandidatesUnresolved(PageAt(src, Offset(page, size), size));
    Candidates(PageAt(src, Offset(page, size), size))
      + if Continues(src, size, pageLimit, page)
        then ExtractFrom(src, size, pageLimit, page + 1)
        else []
  }

  /** Number of pages requested from page `page` onwards. */
  function PagesFrom(src: seq<Structure>, size: nat, pageLimit: nat, page: nat): (n: nat)
    requires size > 0 && page >= 1
    decreases |src| - Offset(page, size)
    ensures Offset(page, size) <= |src| ==> Offset(page + n - 1, size) <= |src|
  {
    1 + if Continues(src, size, pageLimit, page)
        then PagesFrom(src, size, pageLimit, page + 1)
        else 0
  }

  function Extracted(src: seq<Structure>, size: nat, pageLimit: nat): seq<Record>
    requires size > 0
  {
    ExtractFrom(src, size, pageLimit, 1)
  }

  function PageCount(src: seq<Structure>, size: nat, pageLimit: nat): nat
    requires size > 0
  {
    PagesFrom(src, size, pageLimit, 1)
  }

  function Min(a: int, b: int): int
  {
    if a <= b then a else b
  }

  /** How many structures of the collection the fetched pages span: the offset
      after the last page fetched, clamped to the collection's length. */
  function Covered(src: seq<Structure>, size: nat, pageLimit: nat): nat
    requires size > 0
  {
    Min(Offset(PageCount(src, size, pageLimit) + 1, size), |src|)
  }

  /** Every page before the last one was full and below the ceiling; the last one
      was short or at the ceiling. */
  lemma {:induction false} PagesFromStop(src: seq<Structure>, size: nat, pageLimit: nat, page: nat)
    requires size > 0 && page >= 1
    decreases |src| - Offset(page, size)
    ensures var n := PagesFrom(src, size, pageLimit, page);
      n >= 1
      && (forall q :: page <= q < page + n - 1 ==> Continues(src, size, pageLimit, q))
      && !Continues(src, size, pageLimit, page + n - 1)
  {
    if Continues(src, size, pageLimit, page) {
      PagesFromStop(src, size, pageLimit, page + 1);
    }
  }

  /** The pages fetched from `page` onwards span the structures from the page's
      offset up to the end of the last page, and the records are exactly the
      candidates among them. */
  lemma {:induction false} ExtractFromSpan(src: seq<Structure>, size: nat, pageLimit: nat, page: nat)
    requires size > 0 && page >= 1
    requires Offset(page, size) <= |src|
    decreases |src| - Offset(page, size)
    ensures var n := PagesFrom(src, size, pageLimit, page);
      Offset(page, size) <= Min(Offset(page + n, size), |src|)
      && ExtractFrom(src, size, pageLimit, page)
         == Candidates(src[Offset(page, size)..Min(Offset(page + n, size), |src|)])
  {
    if Continues(src, size, pageLimit, page) {
      ExtractFromSpan(src, size, pageLimit, page + 1);
      var end := SpanEndStep(src, size, pageLimit, page);
      ExtractFromFull(src, size, pageLimit, page);
      CandidatesSplit(src, Offset(page, size), Offset(page + 1, size), end);
    } else {
      ExtractFromLast(src, size, pageLimit, page);
    }
  }

  /** After a full page, the pages from `page` and those from `page + 1` end at
      the same place, which lies at or after the start of page `page + 1`. */
  lemma SpanEndStep(src: seq<Structure>, size: nat, pageLimit: nat, page: nat) returns (end: nat)
    requires size > 0 && page >= 1
    requires Continues(src, size, pageLimit, page)
    ensures end == Min(Offset(page + PagesFrom(src, size, pageLimit, page), size), |src|)
    ensures end == Min(Offset(page + 1 + PagesFrom(src, size, pageLimit, page + 1), size), |src|)
    ensures Offset(page, size) <= Offset(page + 1, size) <= end
  {
    var n := PagesFrom(src, size, pageLimit, page + 1);
    assert PagesFrom(src, size, pageLimit, page) == 1 + n;
    OffsetMono(page + 1, page + 1 + n, size);
    end := Min(Offset(page + 1 + n, size), |src|);
  }

  /** A full page below the ceiling: its records, then those of the pages after it. */
  lemma ExtractFromFull(src: seq<Structure>, size: nat, pageLimit: nat, page: nat)
    requires size > 0 && page >= 1
    requires Continues(src, size, pageLimit, page)
    ensures Offset(page + 1, size) <= |src|
    ensures ExtractFrom(src, size, pageLimit, page)
         == Candidates(src[Offset(page, size)..Offset(page + 1, size)]) + ExtractFrom(src, size, pageLimit, page + 1)
    ensures PagesFrom(src, size, pageLimit, page) == 1 + PagesFrom(src, size, pageLimit, page + 1)
  {
    assert PageAt(src, Offset(page, size), size) == src[Offset(page, size)..Offset(page + 1, size)];
  }

  /** The last page fetched: its records are the rest of the stretch it covers. */
  lemma ExtractFromLast(src: seq<Structure>, size: nat, pageLimit: nat, page: nat)
    requires size > 0 && page >= 1
    requires Offset(page, size) <= |src|
    requires !Continues(src, size, pageLimit, page)
    ensures PagesFrom(src, size, pageLimit, page) == 1
    ensures ExtractFrom(src, size, pageLimit, page)
         == Candidates(src[Offset(page, size)..Min(Offset(page + 1, size), |src|)])
  {
    assert Offset(page + 1, size) == Offset(page, size) + size;
    assert PageAt(src, Offset(page, size), size) == src[Offset(page, size)..Min(Offset(page + 1, size), |src|)];
  }

  lemma {:induction false} OffsetMono(a: nat, b: nat, size: nat)
    requires a <= b
    ensures Offset(a, size) <= Offset(b, size)
    decreases b
  {
    if a < b {
      OffsetMono(a, b - 1, size);
    }
  }

  /** The extraction is the candidates of a prefix of the collection: the part the
      fetched pages span, in source order. */
  lemma ExtractedIsPrefix(src: seq<Structure>, size: nat, pageLimit: nat)
    requires size > 0
    ensures Extracted(src, size, pageLimit) == Candidates(src[..Covered(src, size, pageLimit)])
  {
    ExtractFromSpan(src, size, pageLimit, 1);
  }

  /** With a ceiling, at most `pageLimit` pages are requested, even if all are full. */
  lemma PageCeiling(src: seq<Structure>, size: nat, pageLimit: nat)
    requires size > 0 && pageLimit > 0
    ensures 1 <= PageCount(src, size, pageLimit) <= pageLimit
  {
    PagesWithinCeiling(src, size, pageLimit, 1);
  }

  lemma {:induction false} PagesWithinCeiling(src: seq<Structure>, size: nat, pageLimit: nat, page: nat)
    requires size > 0 && 1 <= page <= pageLimit
    decreases |src| - Offset(page, size)
    ensures page + PagesFrom(src, size, pageLimit, page) - 1 <= pageLimit
  {
    if Continues(src, size, pageLimit, page) {
      PagesWithinCeiling(src, size, pageLimit, page + 1);
    }
  }

  /** When no ceiling cuts it short, the extraction sees the whole collection. */
  lemma ExtractedComplete(src: seq<Structure>, size: nat, pageLimit: nat)
    requires size > 0
    requires pageLimit == 0 || |src| <= pageLimit * size
    ensures Covered(src, size, pageLimit) == |src|
    ensures Extracted(src, size, pageLimit) == Candidates(src)
  {
    PagesFromStop(src, size, pageLimit, 1);
    ExtractedIsPrefix(src, size, pageLimit);
    var n := PageCount(src, size, pageLimit);
    assert Offset(n + 1, size) == Offset(n, size) + size;
    if pageLimit > 0 {
      PageCeiling(src, size, pageLimit);
      if n == pageLimit {
        OffsetIsProduct(n + 1, size);
      }
    }
    assert Offset(n + 1, size) >= |src|;
    assert src[..|src|] == src;
  }

  /** When the collection is longer than the ceiling allows, exactly `pageLimit`
      pages are requested and the structures after them are never seen. */
  lemma ExtractedTruncated(src: seq<Structure>, size: nat, pageLimit: nat)
    requires size > 0 && pageLimit > 0
    requires |src| > pageLimit * size
    ensures PageCount(src, size, pageLimit) == pageLimit
    ensures Covered(src, size, pageLimit) == pageLimit * size
    ensures Extracted(src, size, pageLimit) == Candidates(src[..pageLimit * size])
  {
    PageCeiling(src, size, pageLimit);
    PagesFromStop(src, size, pageLimit, 1);
    ExtractedIsPrefix(src, size, pageLimit);
    OffsetIsProduct(pageLimit + 1, size);
    var n := PageCount(src, size, pageLimit);
    if n < pageLimit {
      OffsetMono(n + 1, pageLimit + 1, size);
    }
  }

  // ---------------------------------------------------------------------------
  // The extraction loop

  /** The `skip` parameters of the requests for pages 1 to `n`. */
  function Skips(n: nat, size: nat): (r: seq<nat>)
    ensures |r| == n
  {
    if n == 0 then [] else Skips(n - 1, size) + [Offset(n, size)]
  }

  lemma {:induction false} SkipsAreProducts(n: nat, size: nat)
    ensures forall i :: 0 <= i < n ==> Skips(n, size)[i] == i * size
  {
    if n > 0 {
      SkipsAreProducts(n - 1, size);
      OffsetIsProduct(n, size);
    }
  }

  /** The `skip` parameter of the request for page `page`. */
  method PageSkip(page: nat, pageSize: nat) returns (skip: nat)
    requires page >= 1
    ensures skip == Offset(page, pageSize)
  {
    skip := (page - 1) * pageSize;
    OffsetIsProduct(page, pageSize);
  }

  /** Visits the structures of one page in order and keeps a record for each one
      without ROR identifier (the `forEach` with `push`). */
  method KeepWithoutRor(data: seq<Structure>) returns (kept: seq<Record>)
    ensures kept == Candidates(data)
  {
    kept := [];
    var i := 0;
    while i < |data|
      invariant 0 <= i <= |data|
      invariant kept == Candidates(data[..i])
    {
      FilterMapAppend(data[..i], [data[i]], WithoutRor, ToRecord);
      FilterMapSingle(data[i], WithoutRor, ToRecord);
      assert data[..i + 1] == data[..i] + [data[i]];
      if WithoutRor(data[i]) {
        kept := kept + [ToRecord(data[i])];
      }
      i := i + 1;
    }
    assert data[..i] == data;
  }

  /** Fetches pages 1, 2, ... and keeps the structures without ROR identifier.
      Returns the records and the offsets (`skip`) of the pages requested. */
  method GetStructuresWithoutRor(src: seq<Structure>, pageSize: nat, pageLimit: nat)
    returns (structures: seq<Record>, skips: seq<nat>)
    requires pageSize > 0
    ensures structures == Extracted(src, pageSize, pageLimit)
    ensures skips == Skips(PageCount(src, pageSize, pageLimit), pageSize)
  {
    structures, skips := [], [];
    var page: nat := 1;
    while true
      invariant page >= 1
      invariant skips == Skips(page - 1, pageSize)
      invariant structures + ExtractFrom(src, pageSize, pageLimit, page) == Extracted(src, pageSize, pageLimit)
      invariant page - 1 + PagesFrom(src, pageSize, pageLimit, page) == PageCount(src, pageSize, pageLimit)
      decreases |src| - Offset(page, pageSize)
    {
      var skip := PageSkip(page, pageSize);
      var data := PageAt(src, skip, pageSize);
      skips := skips + [skip];
      var kept := KeepWithoutRor(data);
      ghost var before := structures;
      structures := structures + kept;
      if !((pageLimit == 0 || page < pageLimit) && |data| == pageSize) {
        assert !Continues(src, pageSize, pageLimit, page);
        break;
      }
      ghost var rest := ExtractFrom(src, pageSize, pageLimit, page + 1);
      assert ExtractFrom(src, pageSize, pageLimit, page) == kept + rest;
      AppendAssoc(before, kept, rest);
      page := page + 1;
    }
  }
}
