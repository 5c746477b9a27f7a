/** The whole reconciliation: extraction, resolution, and selection of the
    records for which a ROR identifier was found (`structures.filter((structure)
    => structure?.ror)`). */
module Reconcile {
  import opened Basics
  import opened Extraction
  import opened Resolution

  /** The records with a ROR identifier, in their original order. */
  function Matched(records: seq<Record>): (r: seq<Record>)
    ensures |r| <= |records|
    ensures forall x :: x in r <==> x in records && Truthy(x.ror)
  {
    if records == [] then []
    else (if Truthy(records[0].ror) then [records[0]] else []) + Matched(records[1..])
  }

  /** The selection is stable: it works element by element and keeps the order. */
  lemma {:induction false} MatchedAppend(a: seq<Record>, b: seq<Record>)
    ensures Matched(a + b) == Matched(a) + Matched(b)
  {
    if a == [] {
      assert a + b == b;
    } else {
      assert (a + b)[0] == a[0] && (a + b)[1..] == a[1..] + b;
      MatchedAppend(a[1..], b);
    }
  }

  lemma MatchedPair(x: Record, y: Record)
    requires Truthy(x.ror) && !Truthy(y.ror)
    ensures Matched([x, y]) == [x]
  {
  }

  /** The output of a run over the collection `src`: at most one record per
      structure, each with a ROR identifier. */
  function Reconciled(src: seq<Structure>, pageSize: nat, pageLimit: nat, lookup: Lookup): (r: seq<Record>)
    requires pageSize > 0
    ensures |r| <= |src|
    ensures forall x :: x in r ==> Truthy(x.ror)
  {
    ExtractedIsPrefix(src, pageSize, pageLimit);
    Matched(ResolvedAll(Extracted(src, pageSize, pageLimit), lookup))
  }

  /** Runs the three stages in sequence and returns the records to be written. */
  method Run(src: seq<Structure>, pageSize: nat, pageLimit: nat, lookup: Lookup)
    returns (output: seq<Record>)
    requires pageSize > 0
    ensures output == Reconciled(src, pageSize, pageLimit, lookup)
  {
    var structuresWithoutRor, _ := GetStructuresWithoutRor(src, pageSize, pageLimit);
    var structures := new Record[|structuresWithoutRor|](i requires 0 <= i < |structuresWithoutRor| => structuresWithoutRor[i]);
    assert structures[..] == structuresWithoutRor;
    GetRors(structures, lookup);
    output := Matched(structures[..]);
  }

  /** A record is in the output exactly when it comes from a structure of the
      pages fetched that has no ROR identifier, and its resolution found a
      non-empty ROR identifier. */
  lemma ReconciledMembership(src: seq<Structure>, pageSize: nat, pageLimit: nat, lookup: Lookup, x: Record)
    requires pageSize > 0
    ensures x in Reconciled(src, pageSize, pageLimit, lookup)
        <==> Truthy(x.ror) && exists s :: s in src[..Covered(src, pageSize, pageLimit)]
                                    && WithoutRor(s) && x == Resolved(ToRecord(s), lookup)
  {
    var seen := src[..Covered(src, pageSize, pageLimit)];
    var extracted := Extracted(src, pageSize, pageLimit);
    ExtractedIsPrefix(src, pageSize, pageLimit);
    ResolvedAllMembership(extracted, lookup, x);
    if x in ResolvedAll(extracted, lookup) {
      var y :| y in extracted && x == Resolved(y, lookup);
      FilterMapMembership(seen, WithoutRor, ToRecord, y);
    }
    if exists s :: s in seen && WithoutRor(s) && x == Resolved(ToRecord(s), lookup) {
      var s :| s in seen && WithoutRor(s) && x == Resolved(ToRecord(s), lookup);
      FilterMapMembership(seen, WithoutRor, ToRecord, ToRecord(s));
    }
  }

  /** Each output record carries the identifier, URL and names of its structure. */
  lemma ReconciledFields(src: seq<Structure>, pageSize: nat, pageLimit: nat, lookup: Lookup, x: Record)
    requires pageSize > 0
    requires x in Reconciled(src, pageSize, pageLimit, lookup)
    ensures exists s :: s in src && WithoutRor(s) && x.paysageId == s.id
                        && x.paysageUrl == PaysageUrl(s.id) && x.paysageNames == PaysageNames(s)
    ensures PaysageIdOf(x.paysageUrl) == Some(x.paysageId)
  {
    ReconciledMembership(src, pageSize, pageLimit, lookup, x);
    var s :| s in src[..Covered(src, pageSize, pageLimit)] && WithoutRor(s) && x == Resolved(ToRecord(s), lookup);
    assert s in src;
  }

  /** A chosen item without organisation identifier still ends the search for
      its record, but that record is not written. */
  lemma ChosenWithoutIdExcluded(rec: Record, lookup: Lookup, k: nat, item: Item)
    requires k < |rec.paysageNames|
    requires forall j :: 0 <= j < k ==> FindChosen(lookup(rec.paysageNames[j])).None?
    requires FindChosen(lookup(rec.paysageNames[k])) == Some(item)
    requires !Truthy(OrganizationId(item))
    ensures Queries(rec.paysageNames, lookup) == rec.paysageNames[..k + 1]
    ensures Matched([Resolved(rec, lookup)]) == []
  {
  }

  /** With the repository's settings (200 structures a page, at most 10 pages),
      a run looks at no more than the first 2000 structures. */
  lemma DefaultSettingsBound(src: seq<Structure>)
    ensures PageCount(src, DefaultPageSize, DefaultPageLimit) <= 10
    ensures Covered(src, DefaultPageSize, DefaultPageLimit) <= 2000
  {
    PageCeiling(src, DefaultPageSize, DefaultPageLimit);
    var n := PageCount(src, DefaultPageSize, DefaultPageLimit);
    OffsetMono(n + 1, 11, DefaultPageSize);
    OffsetIsProduct(11, DefaultPageSize);
  }

  // A worked example: one page of three structures. `b` already has a ROR
  // identifier and is skipped; the first name of `a` is matched; no name of `c` is.

  const AlphaOrg := Organization(Some("https://ror.org/05dxjsc12"), Some("Alpha Org"))
  const StructA := Structure("a", [], Some("Alpha"), None)
  const StructB := Structure("b", [Identifier("ror", "https://ror.org/0000")], Some("Beta"), None)
  const StructC := Structure("c", [Identifier("idref", "1")], Some("Gamma"), Some(CurrentName(Some("G"), None)))

  function ExampleLookup(): Lookup
  {
    name => if name == "Alpha" then [Item(false, None), Item(true, Some(AlphaOrg))] else [Item(false, Some(AlphaOrg))]
  }

  lemma ExampleKept()
    ensures WithoutRor(StructA) && !WithoutRor(StructB) && WithoutRor(StructC)
  {
  }

  lemma ExampleExtraction()
    ensures Extracted([StructA, StructB, StructC], DefaultPageSize, DefaultPageLimit)
         == [ToRecord(StructA), ToRecord(StructC)]
  {
    ExampleKept();
    ExtractedComplete([StructA, StructB, StructC], DefaultPageSize, DefaultPageLimit);
    FilterMapTriple(StructA, StructB, StructC, WithoutRor, ToRecord);
  }

  lemma ExampleNames()
    ensures PaysageNames(StructA) == ["Alpha"] && PaysageNames(StructC) == ["Gamma", "G"]
  {
  }

  /** `a` is matched by its first name, on the second item of the response. */
  lemma ExampleResolutionA()
    ensures Resolved(ToRecord(StructA), ExampleLookup())
         == Record("a", PaysageUrl("a"), ["Alpha"], Some("https://ror.org/05dxjsc12"), Some("Alpha Org"))
  {
    ExampleNames();
    var lookup := ExampleLookup();
    var item := Item(true, Some(AlphaOrg));
    var hit := lookup("Alpha");
    assert hit == [Item(false, None), item];
    FirstIndexUnique(hit, IsChosen, 1);
    ResolvedFirstMatch(ToRecord(StructA), lookup, 0, item);
  }

  /** No name of `c` is matched, so its record comes back unchanged. */
  lemma ExampleResolutionC()
    ensures Resolved(ToRecord(StructC), ExampleLookup()) == ToRecord(StructC)
  {
  }

  /** Only `a` is written, with the organisation of its chosen item. */
  lemma ExampleRun()
    ensures Reconciled([StructA, StructB, StructC], DefaultPageSize, DefaultPageLimit, ExampleLookup())
         == [Record("a", PaysageUrl("a"), ["Alpha"], Some("https://ror.org/05dxjsc12"), Some("Alpha Org"))]
  {
    var lookup := ExampleLookup();
    ExampleExtraction();
    ResolvedAllPair(ToRecord(StructA), ToRecord(StructC), lookup);
    ExampleResolutionA();
    ExampleResolutionC();
    MatchedPair(Resolved(ToRecord(StructA), lookup), Resolved(ToRecord(StructC), lookup));
  }
}
