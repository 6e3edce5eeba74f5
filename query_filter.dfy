/**
 * The query filter builder of src/CloudDrive/Filter.php: an ordered map from
 * field names to condition strings, serialised as `field:condition` clauses
 * joined with " AND ". Equality conditions are backslash-escaped the way
 * `addcslashes` escapes the Lucene-style special characters; range
 * conditions are written `[low TO high]` without escaping. The field
 * whitelists are never enforced, so every field is accepted.
 */
module QueryFilter {
  import opened Wrappers
  import Php

  /** The characters escapeValue puts a backslash in front of. */
  const Special: set<char> := {'+', '-', '&', '|', '!', '(', ')', '{', '}', '[', ']', '^',
                               '\'', '"', '~', '*', '?', ':', '\\', ' '}

  /** escapeValue: a backslash before every special character, everything else as it is. */
  function Escape(s: string): (r: string)
    ensures |r| >= |s|
    ensures (forall c :: c in s ==> c !in Special) ==> r == s
    decreases |s|
  {
    if |s| == 0 then ""
    else (if s[0] in Special then ['\\', s[0]] else [s[0]]) + Escape(s[1..])
  }

  /** The strings Escape can produce: special characters occur only right after a backslash. */
  predicate Escaped(r: string)
    decreases |r|
  {
    |r| == 0 ||
    (r[0] == '\\' && |r| >= 2 && r[1] in Special && Escaped(r[2..])) ||
    (r[0] !in Special && Escaped(r[1..]))
  }

  /** Reading an escaped string back: drop each escaping backslash. */
  function Unescape(r: string): string
    decreases |r|
  {
    if |r| == 0 then ""
    else if r[0] == '\\' && |r| >= 2 then [r[1]] + Unescape(r[2..])
    else [r[0]] + Unescape(r[1..])
  }

  /** Escaping loses nothing: unescaping gives the value back. */
  lemma {:induction false} UnescapeEscape(s: string)
    ensures Unescape(Escape(s)) == s
    decreases |s|
  {
    if |s| > 0 {
      UnescapeEscape(s[1..]);
      var head := if s[0] in Special then ['\\', s[0]] else [s[0]];
      assert Escape(s) == head + Escape(s[1..]);
      if s[0] in Special {
        assert (head + Escape(s[1..]))[2..] == Escape(s[1..]);
      } else {
        assert (head + Escape(s[1..]))[1..] == Escape(s[1..]);
      }
    }
  }

  /** Every escaped value has each special character behind a backslash. */
  lemma {:induction false} EscapeIsEscaped(s: string)
    ensures Escaped(Escape(s))
    decreases |s|
  {
    if |s| > 0 {
      EscapeIsEscaped(s[1..]);
      var head := if s[0] in Special then ['\\', s[0]] else [s[0]];
      if s[0] in Special {
        assert (head + Escape(s[1..]))[2..] == Escape(s[1..]);
      } else {
        assert (head + Escape(s[1..]))[1..] == Escape(s[1..]);
      }
    }
  }

  /** On escaped strings Escape and Unescape are inverse the other way too. */
  lemma {:induction false} EscapeUnescape(r: string)
    requires Escaped(r)
    ensures Escape(Unescape(r)) == r
    decreases |r|
  {
    if |r| > 0 {
      if r[0] == '\\' && |r| >= 2 && r[1] in Special && Escaped(r[2..]) {
        EscapeUnescape(r[2..]);
        assert Unescape(r) == [r[1]] + Unescape(r[2..]);
        assert ([r[1]] + Unescape(r[2..]))[1..] == Unescape(r[2..]);
        assert r == ['\\', r[1]] + r[2..];
      } else {
        assert r[0] !in Special && Escaped(r[1..]);
        EscapeUnescape(r[1..]);
        assert ([r[0]] + Unescape(r[1..]))[1..] == Unescape(r[1..]);
        assert r == [r[0]] + r[1..];
      }
    }
  }

  /** One `field:condition` clause. */
  datatype Clause = Clause(field: string, condition: string)

  /** The fields in insertion order. */
  function Fields(clauses: seq<Clause>): (r: seq<string>)
    ensures |r| == |clauses|
    ensures forall i :: 0 <= i < |clauses| ==> r[i] == clauses[i].field
  {
    if |clauses| == 0 then [] else [clauses[0].field] + Fields(clauses[1..])
  }

  /** A PHP array has one entry per key. */
  predicate DistinctFields(clauses: seq<Clause>)
  {
    forall i, j :: 0 <= i < j < |clauses| ==> clauses[i].field != clauses[j].field
  }

  /** Where a field sits, if it is there. */
  function IndexOf(clauses: seq<Clause>, field: string): (r: Option<nat>)
    ensures r.None? <==> forall j :: 0 <= j < |clauses| ==> clauses[j].field != field
    ensures r.Some? ==> r.value < |clauses| && clauses[r.value].field == field
    ensures r.Some? ==> forall j :: 0 <= j < r.value ==> clauses[j].field != field
  {
    if |clauses| == 0 then None
    else if clauses[0].field == field then Some(0)
    else
      var rest := IndexOf(clauses[1..], field);
      if rest.None? then None else Some(rest.value + 1)
  }

  /** `$a[$field]`: the condition stored for a field. */
  function Condition(clauses: seq<Clause>, field: string): Option<string>
  {
    var i := IndexOf(clauses, field);
    if i.None? then None else Some(clauses[i.value].condition)
  }

  /** `$a[$field] = $c`: an existing field keeps its place, a new one goes last. */
  function Put(clauses: seq<Clause>, field: string, condition: string): seq<Clause>
  {
    var i := IndexOf(clauses, field);
    if i.Some? then clauses[i.value := Clause(field, condition)] else clauses + [Clause(field, condition)]
  }

  /** The clauses buildString joins, in insertion order. */
  function Terms(clauses: seq<Clause>): (r: seq<string>)
    ensures |r| == |clauses|
    ensures forall i :: 0 <= i < |clauses| ==> r[i] == clauses[i].field + ":" + clauses[i].condition
  {
    if |clauses| == 0 then [] else [clauses[0].field + ":" + clauses[0].condition] + Terms(clauses[1..])
  }

  /** "[low TO high]": the range condition, its values not escaped. */
  function RangeCondition(range: seq<string>): string
  {
    "[" + Php.Implode(" TO ", range) + "]"
  }

  /** Assignment keeps one entry per field, stores the condition, and leaves every other field alone. */
  lemma PutProperties(clauses: seq<Clause>, field: string, condition: string)
    requires DistinctFields(clauses)
    ensures DistinctFields(Put(clauses, field, condition))
    ensures Condition(Put(clauses, field, condition), field) == Some(condition)
    ensures forall g :: g != field ==> Condition(Put(clauses, field, condition), g) == Condition(clauses, g)
  {
    var r := Put(clauses, field, condition);
    var i := IndexOf(clauses, field);
    forall g | g != field
      ensures Condition(r, g) == Condition(clauses, g)
    {
      PutOther(clauses, field, condition, g);
    }
    if i.None? {
      PutNewIndex(clauses, field, condition);
    } else {
      IndexOfFirst(r, field, i.value);
    }
  }

  lemma PutNewIndex(clauses: seq<Clause>, field: string, condition: string)
    requires IndexOf(clauses, field).None?
    ensures IndexOf(clauses + [Clause(field, condition)], field) == Some(|clauses|)
  {
    var r := clauses + [Clause(field, condition)];
    assert forall j :: 0 <= j < |clauses| ==> r[j] == clauses[j];
    assert r[|clauses|].field == field;
  }

  /** IndexOf finds the first clause with the field. */
  lemma IndexOfFirst(clauses: seq<Clause>, field: string, k: nat)
    requires k < |clauses| && clauses[k].field == field
    requires forall j :: 0 <= j < k ==> clauses[j].field != field
    ensures IndexOf(clauses, field) == Some(k)
  {
  }

  lemma PutOther(clauses: seq<Clause>, field: string, condition: string, g: string)
    requires g != field
    ensures Condition(Put(clauses, field, condition), g) == Condition(clauses, g)
  {
    var r := Put(clauses, field, condition);
    var k := IndexOf(clauses, g);
    assert forall j :: 0 <= j < |clauses| ==> (r[j].field == g <==> clauses[j].field == g);
    assert forall j :: 0 <= j < |clauses| && clauses[j].field == g ==> r[j] == clauses[j];
    if k.Some? {
      IndexOfFirst(r, g, k.value);
    } else if |r| > |clauses| {
      assert r[|clauses|].field == field;
    }
  }

  /** Replacing a known field keeps every clause's place; a new field is added at the end. */
  lemma PutOrder(clauses: seq<Clause>, field: string, condition: string)
    ensures IndexOf(clauses, field).Some? ==> Fields(Put(clauses, field, condition)) == Fields(clauses)
    ensures IndexOf(clauses, field).None? ==> Fields(Put(clauses, field, condition)) == Fields(clauses) + [field]
  {
    var r := Put(clauses, field, condition);
    var i := IndexOf(clauses, field);
    if i.Some? {
      assert forall j :: 0 <= j < |r| ==> r[j].field == clauses[j].field;
    } else {
      assert forall j :: 0 <= j < |clauses| ==> r[j] == clauses[j];
      assert r[|clauses|].field == field;
    }
  }

  /** The filter object: its `filter` array as an ordered list of clauses. */
  class Filter {
    var clauses: seq<Clause>

    ghost predicate Valid()
      reads this
    {
      DistinctFields(clauses)
    }

    /** An empty filter. */
    constructor ()
      ensures Valid() && clauses == []
    {
      clauses := [];
    }

    /** addEqualityFilter with a string condition: the escaped value under the field. */
    method AddEqualityFilter(field: string, conditions: string)
      requires Valid()
      modifies this
      ensures Valid()
      ensures clauses == Put(old(clauses), field, Escape(conditions))
    {
      PutProperties(clauses, field, Escape(conditions));
      var i := IndexOf(clauses, field);
      if i.Some? {
        clauses := clauses[i.value := Clause(field, Escape(conditions))];
      } else {
        clauses := clauses + [Clause(field, Escape(conditions))];
      }
    }

    /** addRangeFilter: "[low TO high]" under the field, unescaped. */
    method AddRangeFilter(field: string, range: seq<string>)
      requires Valid()
      modifies this
      ensures Valid()
      ensures clauses == Put(old(clauses), field, RangeCondition(range))
    {
      var condition := "[" + Php.Implode(" TO ", range) + "]";
      PutProperties(clauses, field, condition);
      var i := IndexOf(clauses, field);
      if i.Some? {
        clauses := clauses[i.value := Clause(field, condition)];
      } else {
        clauses := clauses + [Clause(field, condition)];
      }
    }

    /** buildString: the `field:condition` clauses, in insertion order, joined with " AND ". */
    method BuildString() returns (s: string)
      ensures s == Php.Implode(" AND ", Terms(clauses))
      ensures |clauses| == 0 ==> s == ""
      ensures |clauses| == 1 ==> s == clauses[0].field + ":" + clauses[0].condition
    {
      var retval: seq<string> := [];
      var i := 0;
      while i < |clauses|
        invariant i <= |clauses|
        invariant retval == Terms(clauses)[..i]
      {
        retval := retval + [clauses[i].field + ":" + clauses[i].condition];
        i := i + 1;
      }
      assert retval == Terms(clauses);
      s := Php.Implode(" AND ", retval);
    }
  }

  /** After adding a field the query string has one clause per field, in place, with the new condition. */
  lemma {:induction false} AddKeepsPlace(clauses: seq<Clause>, field: string, condition: string, k: nat)
    requires DistinctFields(clauses) && k < |clauses| && clauses[k].field == field
    ensures Terms(Put(clauses, field, condition)) == Terms(clauses)[k := field + ":" + condition]
  {
    IndexOfFirst(clauses, field, k);
    var r := Put(clauses, field, condition);
    assert forall j :: 0 <= j < |r| ==> Terms(r)[j] == Terms(clauses)[k := field + ":" + condition][j];
  }
}
