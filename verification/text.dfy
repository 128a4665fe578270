/** The few `java.lang.String` operations the core relies on, with their Java semantics:
    `String.join`, `split(" ")`, `replace`, `contains`, `toUpperCase` (ASCII letters) and
    `compareTo` (as a "less or equal" predicate). */
module Text {

  /** `String.join(sep, parts)` and `Collectors.joining(sep)`. */
  function Join(parts: seq<string>, sep: string): string
  {
    if |parts| == 0 then ""
    else if |parts| == 1 then parts[0]
    else parts[0] + sep + Join(parts[1..], sep)
  }

  /** Appending one more part adds the separator and the part at the end, which is what
      a `StringBuilder` loop over the parts does. */
  lemma {:induction false} JoinSnoc(parts: seq<string>, p: string, sep: string)
    ensures Join(parts + [p], sep) == if |parts| == 0 then p else Join(parts, sep) + sep + p
    decreases |parts|
  {
    if |parts| == 0 {
      assert parts + [p] == [p];
    } else if |parts| == 1 {
      assert (parts + [p])[1..] == [p];
    } else {
      assert (parts + [p])[1..] == parts[1..] + [p];
      JoinSnoc(parts[1..], p, sep);
    }
  }

  /** Joining one part more: the separator, when something precedes, and the part. */
  lemma JoinStep(parts: seq<string>, i: nat, sep: string)
    requires i < |parts|
    ensures Join(parts[..i], sep) + (if 0 < i then sep else "") + parts[i] == Join(parts[..i + 1], sep)
  {
    JoinSnoc(parts[..i], parts[i], sep);
    PrefixSnoc(parts, i);
  }

  lemma Assoc<T>(p: seq<T>, q: seq<T>, r: seq<T>)
    ensures p + q + r == p + (q + r)
  {
  }

  /** A prefix one element longer is the shorter prefix and that element. */
  lemma PrefixSnoc<T>(s: seq<T>, i: nat)
    requires i < |s|
    ensures s[..i + 1] == s[..i] + [s[i]]
  {
  }

  /** The number of occurrences of the character `c` in `s`. */
  function CountChar(s: string, c: char): nat
  {
    if |s| == 0 then 0 else (if s[0] == c then 1 else 0) + CountChar(s[1..], c)
  }

  lemma {:induction false} CountCharConcat(a: string, b: string, c: char)
    ensures CountChar(a + b, c) == CountChar(a, c) + CountChar(b, c)
    decreases |a|
  {
    if |a| == 0 {
      assert a + b == b;
    } else {
      assert (a + b)[1..] == a[1..] + b;
      CountCharConcat(a[1..], b, c);
    }
  }

  lemma {:induction false} CountCharNone(s: string, c: char)
    requires c !in s
    ensures CountChar(s, c) == 0
    decreases |s|
  {
    if |s| > 0 {
      CountCharNone(s[1..], c);
    }
  }

  /** The total number of occurrences of `c` over a sequence of strings. */
  function CountCharAll(parts: seq<string>, c: char): nat
  {
    if |parts| == 0 then 0 else CountChar(parts[0], c) + CountCharAll(parts[1..], c)
  }

  lemma {:induction false} CountCharAllNone(parts: seq<string>, c: char)
    requires forall i :: 0 <= i < |parts| ==> c !in parts[i]
    ensures CountCharAll(parts, c) == 0
    decreases |parts|
  {
    if |parts| > 0 {
      CountCharNone(parts[0], c);
      CountCharAllNone(parts[1..], c);
    }
  }

  /** Joining keeps every occurrence of `c` from the parts and adds those of the separators. */
  lemma {:induction false} CountCharJoin(parts: seq<string>, sep: string, c: char)
    requires |parts| > 0
    ensures CountChar(Join(parts, sep), c) == CountCharAll(parts, c) + (|parts| - 1) * CountChar(sep, c)
    decreases |parts|
  {
    if |parts| > 1 {
      CountCharJoin(parts[1..], sep, c);
      CountCharConcat(parts[0], sep, c);
      CountCharConcat(parts[0] + sep, Join(parts[1..], sep), c);
    }
  }

  // ---------------------------------------------------------------------------------------
  // Lexicographic order (`String.compareTo(...) <= 0`)

  predicate StrLe(a: string, b: string)
  {
    if |a| == 0 then true
    else if |b| == 0 then false
    else if a[0] != b[0] then a[0] < b[0]
    else StrLe(a[1..], b[1..])
  }

  lemma {:induction false} StrLeTotal(a: string, b: string)
    ensures StrLe(a, b) || StrLe(b, a)
    decreases |a|
  {
    if |a| > 0 && |b| > 0 && a[0] == b[0] {
      StrLeTotal(a[1..], b[1..]);
    }
  }

  lemma {:induction false} StrLeTrans(a: string, b: string, c: string)
    requires StrLe(a, b) && StrLe(b, c)
    ensures StrLe(a, c)
    decreases |a|
  {
    if |a| > 0 && |b| > 0 && |c| > 0 && a[0] == b[0] && b[0] == c[0] {
      StrLeTrans(a[1..], b[1..], c[1..]);
    }
  }

  lemma {:induction false} StrLeAntisym(a: string, b: string)
    requires StrLe(a, b) && StrLe(b, a)
    ensures a == b
    decreases |a|
  {
    if |a| > 0 {
      StrLeAntisym(a[1..], b[1..]);
      assert a == [a[0]] + a[1..] && b == [b[0]] + b[1..];
    }
  }

  // ---------------------------------------------------------------------------------------
  // `split(" ")`

  /** Cutting `s` at every space: one piece more than there are spaces, empty pieces kept. */
  function SplitAll(s: string): (r: seq<string>)
    ensures |r| == CountChar(s, ' ') + 1
    ensures forall i :: 0 <= i < |r| ==> ' ' !in r[i]
  {
    if |s| == 0 then [""]
    else
      var rest := SplitAll(s[1..]);
      if s[0] == ' ' then [""] + rest
      else
        assert forall i :: 1 <= i < |rest| ==> ' ' !in rest[i];
        [[s[0]] + rest[0]] + rest[1..]
  }

  lemma {:induction false} SplitAllJoin(s: string)
    ensures Join(SplitAll(s), " ") == s
    decreases |s|
  {
    if |s| > 0 {
      SplitAllJoin(s[1..]);
      var rest := SplitAll(s[1..]);
      if s[0] == ' ' {
        assert s == " " + s[1..];
      } else if |rest| == 1 {
        assert s == [s[0]] + s[1..];
      } else {
        assert s == [s[0]] + s[1..];
        assert ([[s[0]] + rest[0]] + rest[1..])[1..] == rest[1..];
      }
    }
  }

  /** When `s` does not end with a space, the last piece is not empty. */
  lemma {:induction false} SplitAllLastNonEmpty(s: string)
    requires |s| > 0 && s[|s| - 1] != ' '
    ensures SplitAll(s)[|SplitAll(s)| - 1] != ""
    decreases |s|
  {
    var rest := SplitAll(s[1..]);
    if s[0] == ' ' {
      SplitAllLastNonEmpty(s[1..]);
    } else if |rest| > 1 {
      SplitAllLastNonEmpty(s[1..]);
    }
  }

  // ---------------------------------------------------------------------------------------
  // Cutting at a separator string (the inverse of `String.join`)

  /** Cutting `s` at every occurrence of `sep`, scanning from the left; empty pieces kept. */
  function SplitOn(s: string, sep: string): (r: seq<string>)
    requires |sep| > 0
    ensures |r| > 0
    decreases |s|
  {
    if |s| == 0 then [""]
    else if sep <= s then [""] + SplitOn(s[|sep|..], sep)
    else
      var rest := SplitOn(s[1..], sep);
      [[s[0]] + rest[0]] + rest[1..]
  }

  /** A prefix free of the separator's first character joins the first piece of what follows. */
  lemma {:induction false} SplitOnPlainPrefix(p: string, tail: string, sep: string)
    requires |sep| > 0 && sep[0] !in p
    ensures SplitOn(p + tail, sep) == [p + SplitOn(tail, sep)[0]] + SplitOn(tail, sep)[1..]
    decreases |p|
  {
    if |p| == 0 {
      var t := SplitOn(tail, sep);
      assert p + tail == tail && p + t[0] == t[0];
      assert t == [t[0]] + t[1..];
    } else {
      var s := p + tail;
      assert s[0] == p[0] && s[0] != sep[0];
      assert !(sep <= s);
      assert s[1..] == p[1..] + tail;
      SplitOnPlainPrefix(p[1..], tail, sep);
      assert [s[0]] + (p[1..] + SplitOn(tail, sep)[0]) == p + SplitOn(tail, sep)[0];
    }
  }

  /** Joining pieces free of the separator's first character and cutting the result at the
      separator gives the pieces back. */
  lemma {:induction false} SplitOnJoin(parts: seq<string>, sep: string)
    requires |parts| > 0 && |sep| > 0
    requires forall i :: 0 <= i < |parts| ==> sep[0] !in parts[i]
    ensures SplitOn(Join(parts, sep), sep) == parts
    decreases |parts|
  {
    if |parts| == 1 {
      SplitOnPlainPrefix(parts[0], "", sep);
      assert parts[0] + "" == parts[0];
    } else {
      var rest := Join(parts[1..], sep);
      assert Join(parts, sep) == parts[0] + (sep + rest);
      SplitOnPlainPrefix(parts[0], sep + rest, sep);
      assert sep <= sep + rest && (sep + rest)[|sep|..] == rest;
      assert SplitOn(sep + rest, sep) == [""] + SplitOn(rest, sep);
      SplitOnJoin(parts[1..], sep);
      assert parts[0] + "" == parts[0];
      assert parts == [parts[0]] + parts[1..];
    }
  }

  /** Removes the empty strings at the end of a list. */
  function DropTrailingEmpty(xs: seq<string>): (r: seq<string>)
    ensures r <= xs
    ensures |r| > 0 ==> r[|r| - 1] != ""
    ensures forall i :: |r| <= i < |xs| ==> xs[i] == ""
  {
    if |xs| > 0 && xs[|xs| - 1] == "" then DropTrailingEmpty(xs[..|xs| - 1]) else xs
  }

  /** `s.split(" ")`: when `s` has no space the result is `[s]` (so `""` gives `[""]`);
      otherwise the pieces between spaces with the trailing empty pieces removed. */
  function JavaSplit(s: string): (tokens: seq<string>)
    ensures forall i :: 0 <= i < |tokens| ==> ' ' !in tokens[i]
    ensures ' ' !in s ==> tokens == [s]
  {
    if ' ' !in s then [s] else DropTrailingEmpty(SplitAll(s))
  }

  /** Splitting and re-joining with single spaces gives back the query, unless trailing
      spaces were dropped. */
  lemma SplitJoinRoundTrip(s: string)
    requires |s| == 0 || s[|s| - 1] != ' '
    ensures Join(JavaSplit(s), " ") == s
  {
    SplitAllJoin(s);
    if ' ' in s {
      SplitAllLastNonEmpty(s);
    }
  }

  // ---------------------------------------------------------------------------------------
  // `contains` and `replace`

  /** `s.contains(t)`; the empty string is contained in every string. */
  predicate Contains(s: string, t: string)
  {
    t <= s || (|s| > 0 && Contains(s[1..], t))
  }

  /** What a string contains, a longer string ending with it contains too. */
  lemma {:induction false} ContainsAfter(a: string, b: string, t: string)
    requires Contains(b, t)
    ensures Contains(a + b, t)
    decreases |a|
  {
    if |a| == 0 {
      assert a + b == b;
    } else {
      assert (a + b)[1..] == a[1..] + b;
      ContainsAfter(a[1..], b, t);
    }
  }

  /** Every part of a join is contained in it. */
  lemma {:induction false} JoinContains(parts: seq<string>, sep: string, i: nat)
    requires i < |parts|
    ensures Contains(Join(parts, sep), parts[i])
    decreases |parts|
  {
    if |parts| == 1 {
      assert parts[i] <= Join(parts, sep);
    } else if i == 0 {
      assert parts[0] <= parts[0] + sep + Join(parts[1..], sep);
    } else {
      JoinContains(parts[1..], sep, i - 1);
      ContainsAfter(parts[0] + sep, Join(parts[1..], sep), parts[i]);
    }
  }

  /** `s.replace(t, r)` for a non-empty `t`: every non-overlapping occurrence of `t`,
      scanning from the left, is replaced by `r`. An empty `t` puts `r` before every
      character and at the end. */
  function ReplaceAll(s: string, t: string, r: string): string
    decreases |s|
  {
    if |t| == 0 then InsertEverywhere(s, r)
    else if |s| == 0 then ""
    else if t <= s then r + ReplaceAll(s[|t|..], t, r)
    else [s[0]] + ReplaceAll(s[1..], t, r)
  }

  function InsertEverywhere(s: string, r: string): string
  {
    if |s| == 0 then r else r + [s[0]] + InsertEverywhere(s[1..], r)
  }

  /** A string without any occurrence of `t` is unchanged by replacing `t`. */
  lemma {:induction false} ReplaceAbsent(s: string, t: string, r: string)
    requires |t| > 0 && !Contains(s, t)
    ensures ReplaceAll(s, t, r) == s
    decreases |s|
  {
    if |s| > 0 {
      ReplaceAbsent(s[1..], t, r);
      assert s == [s[0]] + s[1..];
    }
  }

  /** The number of non-overlapping occurrences `ReplaceAll` replaces. */
  function Occurrences(s: string, t: string): nat
    requires |t| > 0
    decreases |s|
  {
    if |s| == 0 then 0
    else if t <= s then 1 + Occurrences(s[|t|..], t)
    else Occurrences(s[1..], t)
  }

  /** Counting `c` after a replacement: the occurrences of `c` in the text that was kept
      plus one copy of `r`'s per replaced occurrence, when `c` is not in `t`. */
  lemma {:induction false} CountCharReplace(s: string, t: string, r: string, c: char)
    requires |t| > 0 && c !in t && c !in s
    ensures CountChar(ReplaceAll(s, t, r), c) == Occurrences(s, t) * CountChar(r, c)
    decreases |s|
  {
    if |s| > 0 {
      if t <= s {
        var rest := s[|t|..];
        assert forall k :: 0 <= k < |rest| ==> rest[k] == s[|t| + k];
        CountCharReplace(rest, t, r, c);
        CountCharConcat(r, ReplaceAll(rest, t, r), c);
        var n, k := Occurrences(rest, t), CountChar(r, c);
        assert (1 + n) * k == k + n * k;
      } else {
        var rest := s[1..];
        assert forall k :: 0 <= k < |rest| ==> rest[k] == s[1 + k];
        CountCharReplace(rest, t, r, c);
        CountCharConcat([s[0]], ReplaceAll(rest, t, r), c);
      }
    }
  }

  /** A string that is exactly `t` has exactly one occurrence of `t`. */
  lemma OccurrencesSelf(t: string)
    requires |t| > 0
    ensures Occurrences(t, t) == 1
  {
    assert t[|t|..] == "";
  }

  /** Removes every `,`, `(` and `)`: the three chained `replace(..., "")` calls that
      `QueryManager` applies to a token before comparing it. */
  function Strip(s: string): (r: string)
    ensures forall ch :: ch in r ==> ch in s && ch != ',' && ch != '(' && ch != ')'
  {
    if |s| == 0 then ""
    else if s[0] == ',' || s[0] == '(' || s[0] == ')' then Strip(s[1..])
    else [s[0]] + Strip(s[1..])
  }

  /** `toUpperCase()` for the ASCII letters; other characters are kept. */
  function ToUpper(s: string): (r: string)
    ensures |r| == |s|
    ensures forall i :: 0 <= i < |s| && 'a' <= s[i] <= 'z' ==> 'A' <= r[i] <= 'Z' && r[i] as int == s[i] as int - 32
    ensures forall i :: 0 <= i < |s| && !('a' <= s[i] <= 'z') ==> r[i] == s[i]
  {
    if |s| == 0 then ""
    else [if 'a' <= s[0] <= 'z' then (s[0] as int - 32) as char else s[0]] + ToUpper(s[1..])
  }

  /** `list.indexOf(x)`: the first position holding `x`, or -1. */
  function IndexOf<T(==)>(xs: seq<T>, x: T): (i: int)
    ensures -1 <= i < |xs|
    ensures i == -1 <==> x !in xs
    ensures 0 <= i ==> xs[i] == x && x !in xs[..i]
  {
    if |xs| == 0 then -1
    else if xs[0] == x then 0
    else
      var j := IndexOf(xs[1..], x);
      if j == -1 then -1
      else
        assert xs[..j + 1] == [xs[0]] + xs[1..][..j];
        j + 1
  }
}
