/** `ReflectionUtils`: the declared fields of a class sorted by name, with or without the
    `@Id` fields. */
module Reflection {
  import opened Model
  import opened FieldOrder

  predicate IsId(f: FieldDesc)
  {
    f.annotations.id
  }

  predicate IsNotId(f: FieldDesc)
  {
    !f.annotations.id
  }

  /** `getSortedEntityFields`: all declared fields, none dropped or added, sorted by name. */
  function GetSortedEntityFields(c: ClassDesc): (r: seq<FieldDesc>)
    ensures SortedByName(r)
    ensures multiset(r) == multiset(c.fields)
  {
    SortByName(c.fields)
  }

  /** `getSortedEntityFieldsWithoutIdField`: the declared fields minus exactly the `@Id`
      ones, sorted by name. */
  function GetSortedEntityFieldsWithoutIdField(c: ClassDesc): (r: seq<FieldDesc>)
    ensures SortedByName(r)
    ensures forall f :: f in r <==> f in c.fields && !f.annotations.id
    ensures multiset(r) <= multiset(c.fields)
    ensures |r| == |c.fields| - Count(c.fields, IsId)
  {
    var kept := Filter(c.fields, IsNotId);
    FilterCount(c.fields, IsNotId);
    CountComplement(c.fields, IsId, IsNotId);
    SortByNameMembers(kept);
    SortByName(kept)
  }
}
