/** The two stream steps the reflection helpers share: keeping the declared fields that pass
    a test (`filter`) and ordering fields by name (`sorted(Comparator.comparing(Field::getName))`).
    Java's sort is stable, and so is the insertion sort below. */
module FieldOrder {
  import opened Model
  import opened Wrappers
  import opened Text

  predicate SortedByName(fs: seq<FieldDesc>)
  {
    forall i, j :: 0 <= i < j < |fs| ==> StrLe(fs[i].name, fs[j].name)
  }

  /** Every field of `fs` has a name no smaller than `name`. */
  predicate NamesFrom(name: string, fs: seq<FieldDesc>)
  {
    forall j :: 0 <= j < |fs| ==> StrLe(name, fs[j].name)
  }

  /** Inserts `f` before the first field whose name is not smaller than `f`'s. */
  function InsertByName(f: FieldDesc, fs: seq<FieldDesc>): (r: seq<FieldDesc>)
    requires SortedByName(fs)
    ensures SortedByName(r)
    ensures multiset(r) == multiset(fs) + multiset{f}
  {
    if |fs| == 0 then [f]
    else if StrLe(f.name, fs[0].name) then
      assert NamesFrom(f.name, fs) by {
        forall j | 0 <= j < |fs| ensures StrLe(f.name, fs[j].name) {
          if j > 0 { StrLeTrans(f.name, fs[0].name, fs[j].name); }
        }
      }
      [f] + fs
    else
      StrLeTotal(f.name, fs[0].name);
      var rest := InsertByName(f, fs[1..]);
      assert fs == [fs[0]] + fs[1..];
      assert NamesFrom(fs[0].name, rest) by {
        forall j | 0 <= j < |rest| ensures StrLe(fs[0].name, rest[j].name) {
          assert rest[j] in multiset(rest);
          assert rest[j] == f || rest[j] in fs[1..];
        }
      }
      [fs[0]] + rest
  }


  /** The fields ordered by name: a sorted permutation of the input. */
  function SortByName(fs: seq<FieldDesc>): (r: seq<FieldDesc>)
    ensures SortedByName(r)
    ensures multiset(r) == multiset(fs)
    ensures |r| == |fs|
  {
    if |fs| == 0 then []
    else
      assert fs == [fs[0]] + fs[1..];
      InsertByName(fs[0], SortByName(fs[1..]))
  }

  /** Sorting neither adds nor drops a field. */
  lemma SortByNameMembers(fs: seq<FieldDesc>)
    ensures forall f :: f in SortByName(fs) <==> f in fs
  {
    var r := SortByName(fs);
    forall f ensures f in r <==> f in fs {
      assert f in r <==> f in multiset(r);
      assert f in fs <==> f in multiset(fs);
    }
  }

  /** The fields satisfying `keep`, in declaration order. */
  function Filter(fs: seq<FieldDesc>, keep: FieldDesc -> bool): (r: seq<FieldDesc>)
    ensures forall f :: f in r <==> f in fs && keep(f)
    ensures multiset(r) <= multiset(fs)
  {
    if |fs| == 0 then []
    else
      assert fs == [fs[0]] + fs[1..];
      (if keep(fs[0]) then [fs[0]] else []) + Filter(fs[1..], keep)
  }

  /** Filtering keeps declaration order: the kept fields of a first part come before those of
      a second part. */
  lemma {:induction false} FilterConcat(a: seq<FieldDesc>, b: seq<FieldDesc>, keep: FieldDesc -> bool)
    ensures Filter(a + b, keep) == Filter(a, keep) + Filter(b, keep)
    decreases |a|
  {
    if |a| == 0 {
      assert a + b == b;
    } else {
      assert (a + b)[0] == a[0] && (a + b)[1..] == a[1..] + b;
      FilterConcat(a[1..], b, keep);
    }
  }

  /** The number of fields satisfying `p`. */
  function Count(fs: seq<FieldDesc>, p: FieldDesc -> bool): nat
  {
    if |fs| == 0 then 0 else (if p(fs[0]) then 1 else 0) + Count(fs[1..], p)
  }

  /** Filtering keeps exactly as many fields as pass the test. */
  lemma {:induction false} FilterCount(fs: seq<FieldDesc>, keep: FieldDesc -> bool)
    ensures |Filter(fs, keep)| == Count(fs, keep)
    decreases |fs|
  {
    if |fs| > 0 {
      FilterCount(fs[1..], keep);
    }
  }

  /** Every field passes exactly one of a test and its negation. */
  lemma {:induction false} CountComplement(fs: seq<FieldDesc>, p: FieldDesc -> bool, q: FieldDesc -> bool)
    requires forall f :: q(f) == !p(f)
    ensures Count(fs, p) + Count(fs, q) == |fs|
    decreases |fs|
  {
    if |fs| > 0 {
      CountComplement(fs[1..], p, q);
    }
  }

  /** `fs[i]` is the first field passing `p`. */
  predicate FirstWhere(fs: seq<FieldDesc>, i: int, p: FieldDesc -> bool)
  {
    0 <= i < |fs| && p(fs[i]) && forall j :: 0 <= j < i ==> !p(fs[j])
  }

  /** `stream().filter(p).findAny()` on a sequential stream: the first field passing `p`. */
  function FindFirst(fs: seq<FieldDesc>, p: FieldDesc -> bool): (r: Option<FieldDesc>)
    ensures r.None? <==> forall f :: f in fs ==> !p(f)
    ensures r.Some? ==> exists i :: FirstWhere(fs, i, p) && fs[i] == r.value
  {
    if |fs| == 0 then None
    else if p(fs[0]) then
      assert FirstWhere(fs, 0, p);
      Some(fs[0])
    else
      var r := FindFirst(fs[1..], p);
      assert fs == [fs[0]] + fs[1..];
      if r.Some? then
        assert exists i :: FirstWhere(fs, i, p) && fs[i] == r.value by {
          var k :| FirstWhere(fs[1..], k, p) && fs[1..][k] == r.value;
          assert fs[k + 1] == r.value;
          assert FirstWhere(fs, k + 1, p) by {
            forall j | 0 <= j < k + 1 ensures !p(fs[j]) {
              if j > 0 { assert fs[j] == fs[1..][j - 1]; }
            }
          }
        }
        r
      else r
  }
}
