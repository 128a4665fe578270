/** `QueryManager`: the translation of a JQL query into native SQL. The query is split into
    space-separated tokens; a token whose text, stripped of `,`, `(` and `)`, is a bound
    `:name` parameter gets that name replaced by `?`; a token naming a mapped field gets the
    field replaced by its column; the token after the first `from`/`into` (or after `update`)
    is replaced by the table name. The bound values are returned in token order. */
module Jql {
  import opened Wrappers
  import opened Model
  import opened Text
  import opened NameResolver

  /** The key under which `setParameters(name, v)` binds `v`. */
  function ParamKey(name: string): (key: string)
    ensures |key| == |name| + 1 && key[0] == ':' && key[1..] == name
  {
    ":" + name
  }

  /** `getValueSqlSubqueryString`: a bound parameter token gets its key replaced by `?`. */
  function ValueToken(tok: string, params: map<string, Value>): (r: string)
    ensures Strip(tok) !in params ==> r == tok
    ensures Strip(tok) in params && |Strip(tok)| > 0 && '?' !in tok ==> CountChar(r, '?') == Occurrences(tok, Strip(tok))
  {
    if Strip(tok) !in params then tok
    else if |Strip(tok)| > 0 && '?' !in tok then
      CountCharReplace(tok, Strip(tok), "?", '?');
      ReplaceAll(tok, Strip(tok), "?")
    else ReplaceAll(tok, Strip(tok), "?")
  }

  predicate IsPunctuation(c: char)
  {
    c == ',' || c == '(' || c == ')'
  }

  predicate AllPunctuation(s: string)
  {
    forall i :: 0 <= i < |s| ==> IsPunctuation(s[i])
  }

  lemma {:induction false} StripPunctuation(s: string)
    requires AllPunctuation(s)
    ensures Strip(s) == ""
    decreases |s|
  {
    if |s| > 0 {
      StripPunctuation(s[1..]);
    }
  }

  lemma {:induction false} StripConcat(a: string, b: string)
    ensures Strip(a + b) == Strip(a) + Strip(b)
    decreases |a|
  {
    if |a| == 0 {
      assert a + b == b;
    } else {
      assert (a + b)[1..] == a[1..] + b;
      StripConcat(a[1..], b);
    }
  }

  lemma {:induction false} StripNoPunctuation(s: string)
    requires forall i :: 0 <= i < |s| ==> !IsPunctuation(s[i])
    ensures Strip(s) == s
    decreases |s|
  {
    if |s| > 0 {
      StripNoPunctuation(s[1..]);
      assert s == [s[0]] + s[1..];
    }
  }

  /** A string lacking the first character of `t` does not contain `t`. */
  lemma {:induction false} NotContainsWithoutFirst(s: string, t: string)
    requires |t| > 0 && t[0] !in s
    ensures !Contains(s, t)
    decreases |s|
  {
    if |s| > 0 {
      NotContainsWithoutFirst(s[1..], t);
    }
  }

  /** Replacing skips a prefix in which no occurrence of `t` can start. */
  lemma {:induction false} ReplaceSkip(pre: string, rest: string, t: string, r: string)
    requires |t| > 0 && t[0] !in pre
    ensures ReplaceAll(pre + rest, t, r) == pre + ReplaceAll(rest, t, r)
    decreases |pre|
  {
    if |pre| == 0 {
      assert pre + rest == rest;
    } else {
      var s := pre + rest;
      var tail := pre[1..];
      assert s[1..] == tail + rest;
      assert !(t <= s) by {
        assert t[0] != s[0];
      }
      assert t[0] !in tail by {
        assert forall x :: x in tail ==> x in pre;
      }
      ReplaceSkip(tail, rest, t, r);
      calc {
        ReplaceAll(s, t, r);
        [s[0]] + ReplaceAll(tail + rest, t, r);
        [pre[0]] + (tail + ReplaceAll(rest, t, r));
        { assert pre == [pre[0]] + tail; }
        pre + ReplaceAll(rest, t, r);
      }
    }
  }

  /** A parameter token surrounded by punctuation, such as `(:firstName,`, becomes `(?,`:
      the key is replaced and the punctuation kept. */
  lemma ValueTokenKeepsPunctuation(pre: string, key: string, post: string, params: map<string, Value>)
    requires AllPunctuation(pre) && AllPunctuation(post)
    requires |key| > 0 && forall i :: 0 <= i < |key| ==> !IsPunctuation(key[i])
    requires key in params
    ensures ValueToken(pre + key + post, params) == pre + "?" + post
  {
    StripSurrounded(pre, key, post);
    ReplaceSurrounded(pre, key, post, "?");
  }

  lemma StripSurrounded(pre: string, key: string, post: string)
    requires AllPunctuation(pre) && AllPunctuation(post)
    requires forall i :: 0 <= i < |key| ==> !IsPunctuation(key[i])
    ensures Strip(pre + key + post) == key
  {
    StripConcat(pre + key, post);
    StripConcat(pre, key);
    StripPunctuation(pre);
    StripPunctuation(post);
    StripNoPunctuation(key);
  }

  lemma ReplaceSurrounded(pre: string, key: string, post: string, r: string)
    requires AllPunctuation(pre) && AllPunctuation(post)
    requires |key| > 0 && !IsPunctuation(key[0])
    ensures ReplaceAll(pre + key + post, key, r) == pre + r + post
  {
    assert key[0] !in pre;
    assert key[0] !in post;
    assert pre + key + post == pre + (key + post);
    ReplaceSkip(pre, key + post, key, r);
    var s := key + post;
    assert key <= s && s[|key|..] == post;
    assert ReplaceAll(s, key, r) == r + ReplaceAll(post, key, r);
    NotContainsWithoutFirst(post, key);
    ReplaceAbsent(post, key, r);
  }

  // ---------------------------------------------------------------------------------------
  // Field names to column names

  /** The test of `getNameSqlSubqueryString`: the token contains `"." + field`, or contains
      the field and has its length. */
  predicate Matches(elem: string, field: string)
  {
    Contains(elem, "." + field) || (Contains(elem, field) && |elem| == |field|)
  }

  lemma {:induction false} ContainsLength(s: string, t: string)
    requires Contains(s, t)
    ensures |t| <= |s|
    ensures |t| == |s| ==> s == t
    decreases |s|
  {
    if !(t <= s) {
      ContainsLength(s[1..], t);
    }
  }

  /** The length test makes the second alternative plain equality. */
  lemma MatchesIff(elem: string, field: string)
    ensures Matches(elem, field) <==> Contains(elem, "." + field) || elem == field
  {
    if Contains(elem, field) && |elem| == |field| {
      ContainsLength(elem, field);
    }
    if elem == field {
      assert field <= elem;
    }
  }

  /** `fieldNames.stream().filter(...).findAny()` over the field-to-column map, taken in its
      iteration order: the first mapped field the token matches. */
  function FindField(columns: seq<(string, string)>, elem: string): (r: Option<(string, string)>)
    ensures r.None? <==> forall p :: p in columns ==> !Matches(elem, p.0)
    ensures r.Some? ==> r.value in columns && Matches(elem, r.value.0)
  {
    if |columns| == 0 then None
    else if Matches(elem, columns[0].0) then Some(columns[0])
    else
      assert columns == [columns[0]] + columns[1..];
      FindField(columns[1..], elem)
  }

  /** The column-renaming step of `toSqlString` for one token. */
  function ColumnToken(columns: seq<(string, string)>, tok: string): (r: string)
    ensures (forall p :: p in columns ==> !Matches(Strip(tok), p.0)) ==> r == tok
  {
    match FindField(columns, Strip(tok))
    case None => tok
    case Some(p) => ReplaceAll(tok, p.0, p.1)
  }

  /** Both rewriting steps applied to one token. */
  function RewriteToken(tok: string, params: map<string, Value>, columns: seq<(string, string)>): (r: string)
    ensures Strip(tok) !in params && (forall p :: p in columns ==> !Matches(Strip(tok), p.0)) ==> r == tok
  {
    ColumnToken(columns, ValueToken(tok, params))
  }

  function RewriteAll(tokens: seq<string>, params: map<string, Value>, columns: seq<(string, string)>): (r: seq<string>)
    ensures |r| == |tokens|
    ensures forall i :: 0 <= i < |tokens| ==> r[i] == RewriteToken(tokens[i], params, columns)
  {
    if |tokens| == 0 then [] else [RewriteToken(tokens[0], params, columns)] + RewriteAll(tokens[1..], params, columns)
  }

  /** A qualified field reference such as `p.firstName`, with the field found first in the
      column map, becomes `p.first_name`: only the field part is renamed. */
  lemma ColumnTokenQualified(columns: seq<(string, string)>, alias: string, field: string, column: string)
    requires |field| > 0 && field[0] !in alias && field[0] != '.'
    requires forall i :: 0 <= i < |alias| ==> !IsPunctuation(alias[i])
    requires forall i :: 0 <= i < |field| ==> !IsPunctuation(field[i])
    requires FindField(columns, alias + "." + field) == Some((field, column))
    ensures ColumnToken(columns, alias + "." + field) == alias + "." + column
  {
    var tok := alias + "." + field;
    StripNoPunctuation(tok);
    assert field[0] !in alias + ".";
    ReplaceSkip(alias + ".", field, field, column);
    assert field <= field && field[|field|..] == "";
  }

  /** A bare field name found in the column map becomes its column name. */
  lemma ColumnTokenBare(columns: seq<(string, string)>, field: string, column: string)
    requires |field| > 0 && forall i :: 0 <= i < |field| ==> !IsPunctuation(field[i])
    requires FindField(columns, field) == Some((field, column))
    ensures ColumnToken(columns, field) == column
  {
    StripNoPunctuation(field);
    assert field <= field && field[|field|..] == "";
    assert ReplaceAll(field, field, column) == column + ReplaceAll("", field, column);
    assert column + "" == column;
  }

  // ---------------------------------------------------------------------------------------
  // The table slot

  /** `getQueryType`: the keyword after which the table name stands. */
  function QueryType(first: string): (keyword: string)
    ensures ToUpper(first) == "SELECT" || ToUpper(first) == "DELETE" ==> keyword == "from"
    ensures ToUpper(first) == "INSERT" ==> keyword == "into"
    ensures ToUpper(first) == "UPDATE" ==> keyword == "update"
    ensures ToUpper(first) !in {"SELECT", "DELETE", "INSERT", "UPDATE"} ==> keyword == ""
  {
    match ToUpper(first)
    case "SELECT" => "from"
    case "INSERT" => "into"
    case "UPDATE" => "update"
    case "DELETE" => "from"
    case _ => ""
  }

  /** `getIndexTableName`: one past the first token equal to the keyword (case-sensitive),
      so 0 when there is none; the first token must exist. */
  function TableIndex(tokens: seq<string>): (r: Result<nat, Failure>)
    ensures |tokens| == 0 <==> r == Failure(IndexOutOfBounds)
    ensures r.Success? ==> r.value == IndexOf(tokens, QueryType(tokens[0])) + 1
    ensures r.Success? && QueryType(tokens[0]) !in tokens ==> r.value == 0
  {
    if |tokens| == 0 then Failure(IndexOutOfBounds)
    else Success(IndexOf(tokens, QueryType(tokens[0])) + 1)
  }

  /** The rewritten tokens with the table slot overwritten by the table name; `List.set`
      rejects a slot past the end. */
  function Translate(tokens: seq<string>, params: map<string, Value>, columns: seq<(string, string)>, table: string)
    : (r: Result<seq<string>, Failure>)
    ensures r.Failure? <==> TableIndex(RewriteAll(tokens, params, columns)).Failure?
                            || TableIndex(RewriteAll(tokens, params, columns)).value >= |tokens|
    ensures r.Failure? ==> r.error == IndexOutOfBounds
    ensures r.Success? ==>
      var slot := TableIndex(RewriteAll(tokens, params, columns)).value;
      && |r.value| == |tokens|
      && r.value[slot] == table
      && forall i :: 0 <= i < |tokens| && i != slot ==> r.value[i] == RewriteToken(tokens[i], params, columns)
  {
    var rewritten := RewriteAll(tokens, params, columns);
    match TableIndex(rewritten)
    case Failure(e) => Failure(e)
    case Success(slot) =>
      if slot >= |rewritten| then Failure(IndexOutOfBounds) else Success(rewritten[slot := table])
  }

  lemma UpperUpdate()
    ensures QueryType("update") == "update" && QueryType("UPDATE") == "update"
  {
    var lower := "update";
    var upper := "UPDATE";
    assert lower[1..][1..][1..][1..][1..][1..] == "";
    assert ToUpper(lower) == upper;
    assert upper[1..][1..][1..][1..][1..][1..] == "";
    assert ToUpper(upper) == upper;
  }

  /** For a query starting with the lower-case keyword `update`, the slot is the second token. */
  lemma UpdateSlot(tokens: seq<string>, params: map<string, Value>, columns: seq<(string, string)>)
    requires |tokens| > 0 && tokens[0] == "update"
    requires Strip("update") !in params && forall p :: p in columns ==> !Matches("update", p.0)
    ensures TableIndex(RewriteAll(tokens, params, columns)) == Success(1)
  {
    var rewritten := RewriteAll(tokens, params, columns);
    var kw := "update";
    assert forall i :: 0 <= i < |kw| ==> !IsPunctuation(kw[i]);
    StripNoPunctuation(kw);
    assert rewritten[0] == kw;
    UpperUpdate();
    assert IndexOf(rewritten, kw) == 0;
  }

  /** The keyword match is case-insensitive but the lookup is not: in a query starting with
      `UPDATE`, no token equals `update`, so the slot is 0 and the keyword itself is
      overwritten by the table name. */
  lemma UpperCaseUpdateSlot(tokens: seq<string>, params: map<string, Value>, columns: seq<(string, string)>)
    requires |tokens| > 0 && RewriteToken(tokens[0], params, columns) == "UPDATE"
    requires forall i :: 0 <= i < |tokens| ==> RewriteToken(tokens[i], params, columns) != "update"
    ensures TableIndex(RewriteAll(tokens, params, columns)) == Success(0)
  {
    var rewritten := RewriteAll(tokens, params, columns);
    UpperUpdate();
    assert "update" !in rewritten;
  }

  // ---------------------------------------------------------------------------------------
  // Bound values

  /** `getParameters`: the bound value of every token whose stripped text is a bound key, in
      token order. */
  function BoundValues(tokens: seq<string>, params: map<string, Value>): (r: seq<Value>)
    ensures |r| <= |tokens|
    ensures forall v :: v in r ==> v in params.Values
    ensures |tokens| == 1 ==> r == (if Strip(tokens[0]) in params then [params[Strip(tokens[0])]] else [])
  {
    if |tokens| == 0 then []
    else
      assert tokens == [tokens[0]] + tokens[1..];
      (if Strip(tokens[0]) in params then [params[Strip(tokens[0])]] else []) + BoundValues(tokens[1..], params)
  }

  /** The values follow the token stream: those of a query's first part come before those of
      its second part, whatever order the parameters were bound in. */
  lemma {:induction false} BoundValuesConcat(a: seq<string>, b: seq<string>, params: map<string, Value>)
    ensures BoundValues(a + b, params) == BoundValues(a, params) + BoundValues(b, params)
    decreases |a|
  {
    if |a| == 0 {
      assert a + b == b;
    } else {
      assert (a + b)[0] == a[0] && (a + b)[1..] == a[1..] + b;
      BoundValuesConcat(a[1..], b, params);
    }
  }

  /** The number of tokens that are bound parameters. */
  function BoundCount(tokens: seq<string>, params: map<string, Value>): nat
  {
    if |tokens| == 0 then 0 else (if Strip(tokens[0]) in params then 1 else 0) + BoundCount(tokens[1..], params)
  }

  lemma {:induction false} BoundValuesLength(tokens: seq<string>, params: map<string, Value>)
    ensures |BoundValues(tokens, params)| == BoundCount(tokens, params)
    decreases |tokens|
  {
    if |tokens| > 0 {
      BoundValuesLength(tokens[1..], params);
    }
  }

  // ---------------------------------------------------------------------------------------
  // Placeholders against bound values

  /** The conditions under which the translation yields one `?` per bound value: no `?` in
      the query, the keys, the mapped names or the table name; bound keys are non-empty and
      occur exactly once in their token (punctuation around a key, not inside it); and the
      token overwritten by the table name is not a parameter. */
  predicate PlaceholderFriendly(tokens: seq<string>, params: map<string, Value>, columns: seq<(string, string)>, table: string)
  {
    && (forall i :: 0 <= i < |tokens| ==> '?' !in tokens[i])
    && (forall k :: k in params ==> '?' !in k && k != "")
    && (forall p :: p in columns ==> '?' !in p.0 && '?' !in p.1)
    && '?' !in table
    && (forall i :: 0 <= i < |tokens| && Strip(tokens[i]) in params && Strip(tokens[i]) != "" ==>
          Occurrences(tokens[i], Strip(tokens[i])) == 1)
  }

  lemma {:induction false} CountCharReplaceKeeps(s: string, t: string, r: string, c: char)
    requires c !in t && c !in r
    ensures CountChar(ReplaceAll(s, t, r), c) == CountChar(s, c)
    decreases |s|
  {
    if |t| == 0 {
      CountCharInsertKeeps(s, r, c);
    } else if |s| > 0 {
      if t <= s {
        CountCharReplaceKeeps(s[|t|..], t, r, c);
        CountCharConcat(r, ReplaceAll(s[|t|..], t, r), c);
        CountCharNone(r, c);
        CountCharNone(t, c);
        assert s == t + s[|t|..];
        CountCharConcat(t, s[|t|..], c);
      } else {
        CountCharReplaceKeeps(s[1..], t, r, c);
        CountCharConcat([s[0]], ReplaceAll(s[1..], t, r), c);
        assert s == [s[0]] + s[1..];
        CountCharConcat([s[0]], s[1..], c);
      }
    }
  }

  lemma {:induction false} CountCharInsertKeeps(s: string, r: string, c: char)
    requires c !in r
    ensures CountChar(InsertEverywhere(s, r), c) == CountChar(s, c)
    decreases |s|
  {
    CountCharNone(r, c);
    if |s| > 0 {
      CountCharInsertKeeps(s[1..], r, c);
      CountCharConcat(r + [s[0]], InsertEverywhere(s[1..], r), c);
      CountCharConcat(r, [s[0]], c);
      assert s == [s[0]] + s[1..];
      CountCharConcat([s[0]], s[1..], c);
    }
  }

  /** A token yields one `?` when it is a bound parameter, none otherwise. */
  lemma TokenPlaceholders(tok: string, params: map<string, Value>, columns: seq<(string, string)>)
    requires '?' !in tok
    requires forall k :: k in params ==> '?' !in k && k != ""
    requires forall p :: p in columns ==> '?' !in p.0 && '?' !in p.1
    requires Strip(tok) in params ==> Occurrences(tok, Strip(tok)) == 1
    ensures CountChar(RewriteToken(tok, params, columns), '?') == if Strip(tok) in params then 1 else 0
  {
    var v := ValueToken(tok, params);
    if Strip(tok) in params {
      CountCharReplace(tok, Strip(tok), "?", '?');
    } else {
      CountCharNone(tok, '?');
    }
    match FindField(columns, Strip(v))
    case None =>
    case Some(p) =>
      CountCharReplaceKeeps(v, p.0, p.1, '?');
  }

  lemma {:induction false} RewriteAllPlaceholders(tokens: seq<string>, params: map<string, Value>, columns: seq<(string, string)>)
    requires forall i :: 0 <= i < |tokens| ==> '?' !in tokens[i]
    requires forall k :: k in params ==> '?' !in k && k != ""
    requires forall p :: p in columns ==> '?' !in p.0 && '?' !in p.1
    requires forall i :: 0 <= i < |tokens| && Strip(tokens[i]) in params && Strip(tokens[i]) != "" ==>
               Occurrences(tokens[i], Strip(tokens[i])) == 1
    ensures CountCharAll(RewriteAll(tokens, params, columns), '?') == BoundCount(tokens, params)
    decreases |tokens|
  {
    if |tokens| > 0 {
      TokenPlaceholders(tokens[0], params, columns);
      RewriteAllPlaceholders(tokens[1..], params, columns);
      assert RewriteAll(tokens, params, columns)[1..] == RewriteAll(tokens[1..], params, columns);
    }
  }

  lemma {:induction false} CountCharAllUpdate(parts: seq<string>, i: nat, s: string, c: char)
    requires i < |parts|
    ensures CountCharAll(parts[i := s], c) + CountChar(parts[i], c) == CountCharAll(parts, c) + CountChar(s, c)
    decreases |parts|
  {
    if i > 0 {
      assert parts[i := s][1..] == parts[1..][i - 1 := s];
      CountCharAllUpdate(parts[1..], i - 1, s, c);
    } else {
      assert parts[i := s][1..] == parts[1..];
    }
  }

  /** Overwriting a token without `?` by a table name without `?` keeps the count. */
  lemma SlotPlaceholders(rewritten: seq<string>, slot: nat, table: string)
    requires slot < |rewritten| && '?' !in table && CountChar(rewritten[slot], '?') == 0
    ensures CountChar(Join(rewritten[slot := table], " "), '?') == CountCharAll(rewritten, '?')
  {
    CountCharNone(table, '?');
    CountCharAllUpdate(rewritten, slot, table, '?');
    CountCharJoin(rewritten[slot := table], " ", '?');
    assert CountChar(" ", '?') == 0;
  }

  /** The SQL text has exactly one `?` per value `getParameters` returns. */
  lemma PlaceholdersMatchParameters(tokens: seq<string>, params: map<string, Value>, columns: seq<(string, string)>, table: string)
    requires PlaceholderFriendly(tokens, params, columns, table)
    requires Translate(tokens, params, columns, table).Success?
    requires Strip(tokens[TableIndex(RewriteAll(tokens, params, columns)).value]) !in params
    ensures CountChar(Join(Translate(tokens, params, columns, table).value, " "), '?') == |BoundValues(tokens, params)|
  {
    var rewritten := RewriteAll(tokens, params, columns);
    var slot := TableIndex(rewritten).value;
    assert Translate(tokens, params, columns, table).value == rewritten[slot := table];
    RewriteAllPlaceholders(tokens, params, columns);
    TokenPlaceholders(tokens[slot], params, columns);
    SlotPlaceholders(rewritten, slot, table);
    BoundValuesLength(tokens, params);
  }

  // ---------------------------------------------------------------------------------------
  // The query manager object

  class QueryManager {
    const entityType: ClassDesc
    var parameters: map<string, Value>
    /** The tokens of the query; `None` until `query` is called. */
    var arrQuery: Option<seq<string>>

    /** Every key is a `:name`. */
    ghost predicate Valid()
      reads this
    {
      forall k :: k in parameters ==> |k| > 0 && k[0] == ':'
    }

    constructor (entityType: ClassDesc)
      ensures Valid()
      ensures this.entityType == entityType && parameters == map[] && arrQuery == None
    {
      this.entityType := entityType;
      parameters := map[];
      arrQuery := None;
    }

    /** `query`: keeps the tokens of `split(" ")`; earlier bindings stay. */
    method Query(query: string)
      modifies this
      ensures arrQuery == Some(JavaSplit(query)) && parameters == old(parameters)
    {
      arrQuery := Some(JavaSplit(query));
    }

    /** `setParameters`: binds `value` under `":" + name`, replacing an earlier binding. */
    method SetParameters(name: string, value: Value)
      requires Valid()
      modifies this
      ensures Valid()
      ensures parameters == old(parameters)[ParamKey(name) := value] && arrQuery == old(arrQuery)
      ensures ParamKey(name) in parameters && parameters[ParamKey(name)] == value
    {
      parameters := parameters[ParamKey(name) := value];
    }

    /** `getParameters`; without a query the token list is `null`. */
    function GetParameters(): (r: Result<seq<Value>, Failure>)
      reads this
      ensures arrQuery.None? <==> r == Failure(NullPointer)
      ensures arrQuery.Some? ==> r.Success? && |r.value| == BoundCount(arrQuery.value, parameters)
    {
      match arrQuery
      case None => Failure(NullPointer)
      case Some(tokens) =>
        BoundValuesLength(tokens, parameters);
        Success(BoundValues(tokens, parameters))
    }

    /** `toSqlString`. The field-to-column map of the entity comes in as `columns`, in the
        map's iteration order. */
    function ToSqlString(columns: seq<(string, string)>): (r: Result<string, Failure>)
      reads this
      ensures arrQuery.None? ==> r == Failure(NullPointer)
      ensures arrQuery.Some? ==>
        (r.Success? <==> Translate(arrQuery.value, parameters, columns, ResolveTableName(entityType)).Success?)
      ensures r.Success? ==>
        exists out :: out == Translate(arrQuery.value, parameters, columns, ResolveTableName(entityType)).value
          && |out| == |arrQuery.value| && r.value == Join(out, " ")
    {
      match arrQuery
      case None => Failure(NullPointer)
      case Some(tokens) =>
        match Translate(tokens, parameters, columns, ResolveTableName(entityType))
        case Failure(e) => Failure(e)
        case Success(out) => Success(Join(out, " "))
    }
  }
}
