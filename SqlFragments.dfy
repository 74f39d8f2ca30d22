/** The stateless helpers of Tiger\Repository: the PDO bind-kind classifier and
    the builders of SQL text fragments (SET list, VALUES tuple, IN list, WHERE
    filter). Field data is an ordered list of key/value entries, as a PHP array is. */
module SqlFragments {
  import opened Collections
  import opened PhpValues

  /** PDO's bind-kind constants. */
  const PARAM_NULL: int := 0
  const PARAM_INT: int := 1
  const PARAM_STR: int := 2
  const PARAM_BOOL: int := 5

  /** The bind kind of a value: int, bool, null and string are checked in that order. */
  function PDOParameter(v: Value): (code: int)
    ensures code == PARAM_INT <==> v.VInt?
    ensures code == PARAM_BOOL <==> v.VBool?
    ensures code == PARAM_NULL <==> v.VNull?
    ensures code == PARAM_STR <==> v.VStr?
  {
    if v.VInt? then PARAM_INT
    else if v.VBool? then PARAM_BOOL
    else if v.VNull? then PARAM_NULL
    else PARAM_STR
  }

  /** True when the value is to be written as SQL null: it is empty, but is neither 0 nor "0".
      These are exactly the values whose text would be empty. */
  predicate PrepareSQLData(v: Value): (isNull: bool)
    ensures isNull <==> Interpolate(v) == ""
  {
    EmptyText(v);
    if IsEmpty(v) then !(v == VInt(0) || v == VStr("0")) else false
  }

  // ---------------------------------------------------------------- createSet

  /** `{$key} = '{$item}'` */
  function SetClause(entry: (string, Value)): string
  {
    entry.0 + " = '" + Interpolate(entry.1) + "'"
  }

  predicate IsNonEmptyEntry(entry: (string, Value))
  {
    !IsEmpty(entry.1)
  }

  /** The SET list: one clause per non-empty entry, in input order, separated by ", ". */
  function SetText(data: seq<(string, Value)>): string
  {
    Join(Map(Filter(data, IsNonEmptyEntry), SetClause), ", ")
  }

  /** The SET list is empty exactly when it has no clause; it is never the text "0". */
  lemma SetTextEmptiness(data: seq<(string, Value)>)
    ensures SetText(data) == "" <==> Filter(data, IsNonEmptyEntry) == []
    ensures SetText(data) != "0"
  {
    var clauses := Map(Filter(data, IsNonEmptyEntry), SetClause);
    if clauses != [] {
      JoinStartsWithFirst(clauses, ", ");
      assert |clauses[0]| >= 5;
    }
  }

  /** Each further entry adds nothing when its value is empty, its clause when it is the
      first clause, and ", " and its clause otherwise. */
  lemma SetTextSnoc(data: seq<(string, Value)>, entry: (string, Value))
    ensures SetText(data + [entry]) ==
            if IsEmpty(entry.1) then SetText(data)
            else if SetText(data) == "" then SetClause(entry)
            else SetText(data) + ", " + SetClause(entry)
  {
    var kept := Filter(data, IsNonEmptyEntry);
    FilterSnoc(data, entry, IsNonEmptyEntry);
    SetTextEmptiness(data);
    if IsEmpty(entry.1) {
      assert Filter(data + [entry], IsNonEmptyEntry) == kept;
    } else {
      assert Filter(data + [entry], IsNonEmptyEntry) == kept + [entry];
      MapSnoc(kept, entry, SetClause);
      if kept != [] {
        JoinSnoc(Map(kept, SetClause), SetClause(entry), ", ");
      } else {
        assert Map(kept + [entry], SetClause) == [SetClause(entry)];
      }
    }
  }

  /** Builds the SET list as the source's loop does, testing whether the list so far is empty to decide
      whether a separator is needed. */
  method CreateSet(data: seq<(string, Value)>) returns (setList: string)
    ensures setList == SetText(data)
  {
    setList := "";
    var i := 0;
    while i < |data|
      invariant 0 <= i <= |data|
      invariant setList == SetText(data[..i])
    {
      var entry := data[i];
      assert data[..i + 1] == data[..i] + [entry];
      SetTextSnoc(data[..i], entry);
      SetTextEmptiness(data[..i]);
      if !IsEmpty(entry.1) {
        if IsEmpty(VStr(setList)) {
          setList := SetClause(entry);
        } else {
          setList := setList + ", " + SetClause(entry);
        }
      }
      i := i + 1;
    }
    assert data[..i] == data;
  }

  /** An entry whose value is empty may be inserted anywhere without changing the SET list. */
  lemma SetTextSkipsEmpty(before: seq<(string, Value)>, key: string, item: Value, after: seq<(string, Value)>)
    requires IsEmpty(item)
    ensures SetText(before + [(key, item)] + after) == SetText(before + after)
  {
    FilterAppend(before + [(key, item)], after, IsNonEmptyEntry);
    FilterAppend(before, after, IsNonEmptyEntry);
    FilterSnoc(before, (key, item), IsNonEmptyEntry);
    assert Filter(before + [(key, item)], IsNonEmptyEntry) == Filter(before, IsNonEmptyEntry);
  }

  /** The SET list is empty exactly when every value is empty. */
  lemma SetTextEmptyIffAllEmpty(data: seq<(string, Value)>)
    ensures SetText(data) == "" <==> forall k :: 0 <= k < |data| ==> IsEmpty(data[k].1)
  {
    SetTextEmptiness(data);
    FilterEmptyIff(data, IsNonEmptyEntry);
  }

  lemma SetTextExample()
    ensures SetText([("name", VStr("Alice")), ("nickname", VStr(""))]) == "name = 'Alice'"
  {
    var data := [("name", VStr("Alice")), ("nickname", VStr(""))];
    assert data[1..][1..] == [];
    assert Filter(data, IsNonEmptyEntry) == [data[0]];
  }

  // ------------------------------------------------------------- createValues

  /** `unset($data[$key])`: the entries whose key is not `key`. */
  function WithoutKey(data: seq<(string, Value)>, key: string): seq<(string, Value)>
  {
    Filter(data, (entry: (string, Value)) => entry.0 != key)
  }

  /** With distinct keys, unset removes exactly the one entry that has the key. */
  lemma WithoutKeyRemovesOne(data: seq<(string, Value)>, key: string, j: nat)
    requires forall a, b :: 0 <= a < b < |data| ==> data[a].0 != data[b].0
    requires j < |data| && data[j].0 == key
    ensures WithoutKey(data, key) == data[..j] + data[j + 1..]
  {
    var p := (entry: (string, Value)) => entry.0 != key;
    var before, after := data[..j], data[j + 1..];
    assert data == before + [data[j]] + after;
    forall k | 0 <= k < |before| ensures p(before[k]) {
      assert before[k] == data[k];
    }
    forall k | 0 <= k < |after| ensures p(after[k]) {
      assert after[k] == data[j + 1 + k];
    }
    FilterAppend(before + [data[j]], after, p);
    FilterSnoc(before, data[j], p);
    FilterAllPass(before, p);
    FilterAllPass(after, p);
  }

  /** One item of the tuple: `null`, or the value's text in single quotes. */
  function SqlLiteral(v: Value): (lit: string)
    ensures lit == "null" <==> Interpolate(v) == ""
    ensures lit != "''"
  {
    if PrepareSQLData(v) then "null"
    else
      var lit := "'" + Interpolate(v) + "'";
      assert |lit| >= 3 && lit[0] == '\'';
      lit
  }

  function EntryLiteral(entry: (string, Value)): string
  {
    SqlLiteral(entry.1)
  }

  /** The VALUES tuple: a 0 placeholder for the key column, then one literal per
      entry other than "id", in input order, all separated by ", " and parenthesised. */
  function ValuesTuple(data: seq<(string, Value)>): string
  {
    OpenTuple(WithoutKey(data, "id")) + ")"
  }

  /** The tuple as far as the loop has built it: "(0" and one ", item" per entry so far. */
  function OpenTuple(entries: seq<(string, Value)>): string
  {
    "(" + Join(["0"] + Map(entries, EntryLiteral), ", ")
  }

  lemma OpenTupleSnoc(entries: seq<(string, Value)>, entry: (string, Value))
    ensures OpenTuple(entries + [entry]) == OpenTuple(entries) + ", " + SqlLiteral(entry.1)
  {
    var items := ["0"] + Map(entries, EntryLiteral);
    MapSnoc(entries, entry, EntryLiteral);
    assert ["0"] + Map(entries + [entry], EntryLiteral) == items + [EntryLiteral(entry)];
    JoinSnoc(items, EntryLiteral(entry), ", ");
  }

  /** Builds the tuple as the source's loop does: start from "(0", append ", item" per entry, close. */
  method CreateValues(data: seq<(string, Value)>) returns (values: string)
    ensures values == ValuesTuple(data)
  {
    var rest := WithoutKey(data, "id");
    values := "(0";
    assert values == OpenTuple(rest[..0]);
    var i := 0;
    while i < |rest|
      invariant 0 <= i <= |rest|
      invariant values == OpenTuple(rest[..i])
    {
      var item := SqlLiteral(rest[i].1);
      assert rest[..i + 1] == rest[..i] + [rest[i]];
      OpenTupleSnoc(rest[..i], rest[i]);
      values := values + ", " + item;
      i := i + 1;
    }
    assert rest[..i] == rest;
    values := values + ")";
  }

  /** The tuple opens with "(0", closes with ")", and its inside is the join of the placeholder
      and the non-id literals. */
  lemma ValuesTupleShape(data: seq<(string, Value)>)
    ensures var t := ValuesTuple(data); |t| >= 3 && t[..2] == "(0" && t[|t| - 1] == ')'
    ensures var items := ["0"] + Map(WithoutKey(data, "id"), EntryLiteral);
            |items| == 1 + |WithoutKey(data, "id")| && ValuesTuple(data) == "(" + Join(items, ", ") + ")"
  {
    var items := ["0"] + Map(WithoutKey(data, "id"), EntryLiteral);
    JoinStartsWithFirst(items, ", ");
    var t := ValuesTuple(data);
    assert t == "(" + Join(items, ", ") + ")";
    assert t[1..2] == Join(items, ", ")[..1];
  }

  /** The text after "(0": for each entry in order, ", " followed by its literal. */
  function ItemsText(entries: seq<(string, Value)>): string
  {
    if entries == [] then ""
    else ItemsText(entries[..|entries| - 1]) + ", " + EntryLiteral(entries[|entries| - 1])
  }

  lemma {:induction false} OpenTupleItems(entries: seq<(string, Value)>)
    ensures OpenTuple(entries) == "(0" + ItemsText(entries)
    decreases |entries|
  {
    if entries != [] {
      var init, last := entries[..|entries| - 1], entries[|entries| - 1];
      assert entries == init + [last];
      OpenTupleItems(init);
      OpenTupleSnoc(init, last);
    }
  }

  /** On the text: "(0", then ", item" for each entry other than "id" in input order, then ")". */
  lemma ValuesTupleItems(data: seq<(string, Value)>)
    ensures ValuesTuple(data) == "(0" + ItemsText(WithoutKey(data, "id")) + ")"
  {
    OpenTupleItems(WithoutKey(data, "id"));
  }

  /** The value stored under "id" never reaches the tuple. */
  lemma ValuesTupleIgnoresId(data: seq<(string, Value)>, j: nat, v: Value)
    requires j < |data| && data[j].0 == "id"
    ensures ValuesTuple(data[j := ("id", v)]) == ValuesTuple(data)
  {
    FilterUpdateRejected(data, (entry: (string, Value)) => entry.0 != "id", j, ("id", v));
  }

  lemma ValuesTupleExample()
    ensures ValuesTuple([("id", VInt(5)), ("name", VStr("")), ("age", VInt(0))]) == "(0, null, '0')"
  {
    var data := [("id", VInt(5)), ("name", VStr("")), ("age", VInt(0))];
    var p := (entry: (string, Value)) => entry.0 != "id";
    assert data[1..][1..][1..] == [];
    assert Filter(data, p) == data[1..];
    assert DigitChar(0) == '0';
    assert IntToText(0) == "0";
    var lits := Map(data[1..], EntryLiteral);
    assert lits[0] == "null" && lits[1] == "'0'";
    assert ["0"] + lits == ["0", "null", "'0'"];
    assert Join(["null", "'0'"], ", ") == "null, '0'";
  }

  // ----------------------------------------------------------------- checkIds

  /** "0" for no ids, otherwise the ids' text joined by ",". */
  function CheckIds(ids: seq<Value>): (t: string)
    ensures ids == [] ==> t == "0"
  {
    if ids == [] then "0" else Join(Map(ids, Interpolate), ",")
  }

  /** For integer ids, splitting the list at "," and reading each piece gives the ids back. */
  lemma CheckIdsRoundTrip(ids: seq<Value>)
    requires ids != [] && forall k :: 0 <= k < |ids| ==> ids[k].VInt?
    ensures var parts := Split(CheckIds(ids), ',');
            |parts| == |ids| &&
            forall k :: 0 <= k < |ids| ==> IsDecimalText(parts[k]) && ParseInt(parts[k]) == ids[k].i
  {
    var texts := Map(ids, Interpolate);
    forall k | 0 <= k < |ids|
      ensures ',' !in texts[k] && IsDecimalText(texts[k]) && ParseInt(texts[k]) == ids[k].i
    {
      IntTextAlphabet(ids[k].i, ',');
      IntTextRoundTrip(ids[k].i);
    }
    SplitJoin(texts, ',');
  }

  lemma CheckIdsExample()
    ensures CheckIds([]) == "0"
    ensures CheckIds([VInt(3), VInt(7), VInt(9)]) == "3,7,9"
  {
    var ids := [VInt(3), VInt(7), VInt(9)];
    assert DigitChar(3) == '3' && DigitChar(7) == '7' && DigitChar(9) == '9';
    assert IntToText(3) == "3" && IntToText(7) == "7" && IntToText(9) == "9";
    var texts := Map(ids, Interpolate);
    assert texts[0] == "3" && texts[1] == "7" && texts[2] == "9";
    assert texts == ["3", "7", "9"];
    assert Join(["7", "9"], ",") == "7,9";
  }

  // ------------------------------------------------------- filtered SELECT query

  /** `{$key} IN ({$value})` */
  function Condition(param: (string, string)): string
  {
    param.0 + " IN (" + param.1 + ")"
  }

  /** The filter: nothing for no parameters, else " WHERE " and the conditions joined by " AND ". */
  function WhereText(params: seq<(string, string)>): string
  {
    if params == [] then "" else " WHERE " + Join(Map(params, Condition), " AND ")
  }

  /** Each further parameter adds " WHERE cond" when it is the first and " AND cond" otherwise. */
  lemma WhereTextSnoc(params: seq<(string, string)>, param: (string, string))
    ensures WhereText(params + [param]) ==
            WhereText(params) + (if params == [] then " WHERE " else " AND ") + Condition(param)
  {
    MapSnoc(params, param, Condition);
    var conds := Map(params, Condition);
    if params != [] {
      JoinSnoc(conds, Condition(param), " AND ");
      assert Join(conds + [Condition(param)], " AND ") == Join(conds, " AND ") + " AND " + Condition(param);
    } else {
      assert Map(params + [param], Condition) == [Condition(param)];
    }
  }

  /** The SELECT statement of loadAllFromTableWithFilter, with the request parameters
      given as key/value text. The WHERE text is built by the source's loop, testing
      `empty($where)` to choose between " WHERE " and " AND ". */
  method FilteredSelect(table: string, params: seq<(string, string)>) returns (query: string)
    ensures query == "SELECT * FROM " + table + WhereText(params)
  {
    query := "SELECT * FROM " + table;
    if |params| > 0 {
      var where := "";
      var i := 0;
      while i < |params|
        invariant 0 <= i <= |params|
        invariant where == WhereText(params[..i])
        invariant i > 0 ==> |where| >= 7 && where[..7] == " WHERE "
      {
        assert params[..i + 1] == params[..i] + [params[i]];
        WhereTextSnoc(params[..i], params[i]);
        if IsEmpty(VStr(where)) {
          where := where + " WHERE " + Condition(params[i]);
        } else {
          where := where + " AND " + Condition(params[i]);
        }
        i := i + 1;
      }
      assert params[..i] == params;
      query := query + where;
    }
  }
}
