/** Resolution of records against the ROR affiliation service (`getRors`).
    The service is a function from a query string to the list of items it
    returns; an absent list is the empty one. */
module Resolution {
  import opened Basics
  import opened Extraction

  datatype Organization = Organization(id: Option<string>, name: Option<string>)

  /** One item of the affiliation response; `chosen` is the service's own "best
      match" flag. A null item behaves as an item that is not chosen. */
  datatype Item = Item(chosen: bool, organization: Option<Organization>)

  /** The affiliation lookup: the items returned for a query string. */
  type Lookup = string -> seq<Item>

  predicate IsChosen(item: Item)
  {
    item.chosen
  }

  /** The first chosen item of a response (`items.find((item) => item?.chosen)`). */
  function FindChosen(items: seq<Item>): (r: Option<Item>)
    ensures r.None? <==> forall i :: 0 <= i < |items| ==> !items[i].chosen
    ensures r.Some? ==> exists k :: 0 <= k < |items| && items[k] == r.value && items[k].chosen
                                    && forall j :: 0 <= j < k ==> !items[j].chosen
  {
    var k := FirstIndex(items, IsChosen);
    if k < |items| then Some(items[k]) else None
  }

  /** `result?.organization?.id` */
  function OrganizationId(item: Item): Option<string>
  {
    if item.organization.Some? then item.organization.value.id else None
  }

  /** `result?.organization?.name` */
  function OrganizationName(item: Item): Option<string>
  {
    if item.organization.Some? then item.organization.value.name else None
  }

  /** Whether looking `name` up yields a chosen item. */
  predicate Matches(lookup: Lookup, name: string)
  {
    FindChosen(lookup(name)).Some?
  }

  /** Index of the first name whose lookup yields a chosen item, or `|names|`. */
  function MatchIndex(names: seq<string>, lookup: Lookup): nat
  {
    FirstIndex(names, name => Matches(lookup, name))
  }

  /** The names looked up, in order: all of them up to and including the first
      one that matches, or all of them when none does. */
  function Queries(names: seq<string>, lookup: Lookup): (q: seq<string>)
    ensures q <= names
    ensures forall j :: 0 <= j < |q| - 1 ==> !Matches(lookup, q[j])
    ensures |q| < |names| ==> q != [] && Matches(lookup, q[|q| - 1])
    ensures q == names || Matches(lookup, q[|q| - 1])
  {
    var k := MatchIndex(names, lookup);
    if k < |names| then names[..k + 1] else names
  }

  /** The record after resolution: `ror` and `rorName` copied from the first
      chosen item of the first matching name; unchanged when no name matches. */
  function Resolved(rec: Record, lookup: Lookup): (r: Record)
    ensures r.paysageId == rec.paysageId
    ensures r.paysageUrl == rec.paysageUrl
    ensures r.paysageNames == rec.paysageNames
  {
    var k := MatchIndex(rec.paysageNames, lookup);
    if k < |rec.paysageNames| then
      var item := FindChosen(lookup(rec.paysageNames[k])).value;
      rec.(ror := OrganizationId(item), rorName := OrganizationName(item))
    else rec
  }

  /** First match wins: if name `k` is the first to yield a chosen item, the
      record takes that item's organisation, whatever later names would give. */
  lemma ResolvedFirstMatch(rec: Record, lookup: Lookup, k: nat, item: Item)
    requires k < |rec.paysageNames|
    requires forall j :: 0 <= j < k ==> FindChosen(lookup(rec.paysageNames[j])).None?
    requires FindChosen(lookup(rec.paysageNames[k])) == Some(item)
    ensures Resolved(rec, lookup) == rec.(ror := OrganizationId(item), rorName := OrganizationName(item))
    ensures Queries(rec.paysageNames, lookup) == rec.paysageNames[..k + 1]
  {
  }

  /** When no name yields a chosen item (in particular when there are no names),
      the record comes back unchanged and every name was looked up. */
  lemma ResolvedNoMatch(rec: Record, lookup: Lookup)
    requires forall j :: 0 <= j < |rec.paysageNames| ==> FindChosen(lookup(rec.paysageNames[j])).None?
    ensures Resolved(rec, lookup) == rec
    ensures Queries(rec.paysageNames, lookup) == rec.paysageNames
  {
  }

  /** A record with no names is returned as is and costs no lookup. */
  lemma ResolvedNoNames(rec: Record, lookup: Lookup)
    requires rec.paysageNames == []
    ensures Resolved(rec, lookup) == rec
    ensures Queries(rec.paysageNames, lookup) == []
  {
  }

  /** Resolving again against the same service changes nothing. */
  lemma ResolvedIdempotent(rec: Record, lookup: Lookup)
    ensures Resolved(Resolved(rec, lookup), lookup) == Resolved(rec, lookup)
  {
  }

  /** Resolves one record: tries its names in order and stops at the first
      whose lookup yields a chosen item. Returns the resolved record and the
      names looked up. */
  method ResolveStructure(rec: Record, lookup: Lookup) returns (r: Record, queried: seq<string>)
    ensures r == Resolved(rec, lookup)
    ensures queried == Queries(rec.paysageNames, lookup)
  {
    queried := [];
    var names := rec.paysageNames;
    for i := 0 to |names|
      invariant queried == names[..i]
      invariant forall j :: 0 <= j < i ==> !Matches(lookup, names[j])
    {
      var query := names[i];
      queried := queried + [query];
      var result := FindChosen(lookup(query));
      if result.Some? {
        r := rec.(ror := OrganizationId(result.value), rorName := OrganizationName(result.value));
        ResolvedFirstMatch(rec, lookup, i, result.value);
        return;
      }
    }
    r := rec;
    ResolvedNoMatch(rec, lookup);
  }

  /** Every record resolved on its own, one output per input, in input order. */
  function ResolvedAll(records: seq<Record>, lookup: Lookup): (r: seq<Record>)
    ensures |r| == |records|
    ensures forall i :: 0 <= i < |r| ==>
      r[i].paysageId == records[i].paysageId && r[i].paysageUrl == records[i].paysageUrl
      && r[i].paysageNames == records[i].paysageNames
  {
    seq(|records|, i requires 0 <= i < |records| => Resolved(records[i], lookup))
  }

  lemma ResolvedAllMembership(records: seq<Record>, lookup: Lookup, x: Record)
    ensures x in ResolvedAll(records, lookup) <==> exists y :: y in records && x == Resolved(y, lookup)
  {
    var out := ResolvedAll(records, lookup);
    if x in out {
      var i :| 0 <= i < |out| && out[i] == x;
      assert records[i] in records;
    }
    if exists y :: y in records && x == Resolved(y, lookup) {
      var y :| y in records && x == Resolved(y, lookup);
      var i :| 0 <= i < |records| && records[i] == y;
      assert out[i] == x;
    }
  }

  lemma ResolvedAllPair(x: Record, y: Record, lookup: Lookup)
    ensures ResolvedAll([x, y], lookup) == [Resolved(x, lookup), Resolved(y, lookup)]
  {
  }

  /** Resolves every record of the array in place. */
  method GetRors(structures: array<Record>, lookup: Lookup)
    modifies structures
    ensures structures[..] == ResolvedAll(old(structures[..]), lookup)
  {
    for i := 0 to structures.Length
      invariant forall j :: 0 <= j < i ==> structures[j] == Resolved(old(structures[j]), lookup)
      invariant forall j :: i <= j < structures.Length ==> structures[j] == old(structures[j])
    {
      var r, _ := ResolveStructure(structures[i], lookup);
      structures[i] := r;
    }
  }
}
