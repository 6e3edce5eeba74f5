/**
 * The shared command base of src/CloudDrive/Commands/Command.php: the CLI
 * configuration (a fixed option table with types and defaults, a bag of
 * values kept coerced to those types), the choice of cache store, the unit
 * of a file size, and which nodes a listing shows and in what order.
 */
module CommandConfig {
  import opened Wrappers
  import Php
  import NodeStore

  /** The two option types of the table. */
  datatype OptionType = StringOption | BoolOption

  /** A PHP value as the config bag holds it, or as decoded from the config file. */
  datatype Value = Str(s: string) | Flag(b: bool) | Null

  /** One row of `configValues`. */
  datatype Setting = Setting(name: string, kind: OptionType, default: Value)

  /** `configValues`, in declaration order. */
  const ConfigValues: seq<Setting> := [
    Setting("email", StringOption, Str("")),
    Setting("client-id", StringOption, Str("")),
    Setting("client-secret", StringOption, Str("")),
    Setting("json.pretty", BoolOption, Flag(false)),
    Setting("upload.duplicates", BoolOption, Flag(false)),
    Setting("database.driver", StringOption, Str("sqlite")),
    Setting("database.database", StringOption, Str("clouddrive_php")),
    Setting("database.host", StringOption, Str("127.0.0.1")),
    Setting("database.username", StringOption, Str("root")),
    Setting("database.password", StringOption, Str("")),
    Setting("display.trash", BoolOption, Flag(false))
  ]

  /** The table is a PHP array: one row per option name. */
  predicate DistinctNames(table: seq<Setting>)
  {
    forall i, j :: 0 <= i < j < |table| ==> table[i].name != table[j].name
  }

  /** `$this->configValues[$key]`, when the key is in the table. */
  function SettingIn(table: seq<Setting>, key: string): (r: Option<Setting>)
    ensures r.None? <==> forall i :: 0 <= i < |table| ==> table[i].name != key
    ensures r.Some? ==> r.value in table && r.value.name == key
  {
    if |table| == 0 then None
    else if table[0].name == key then Some(table[0])
    else SettingIn(table[1..], key)
  }

  function SettingOf(key: string): Option<Setting>
  {
    SettingIn(ConfigValues, key)
  }

  /** Every default already has its option's type. */
  predicate HasType(v: Value, kind: OptionType)
  {
    match kind
    case StringOption => v.Str?
    case BoolOption => v.Flag?
  }

  // ---------------------------------------------------------------------
  // Coercion: filter_var(FILTER_VALIDATE_BOOLEAN) and settype

  /** The whitespace FILTER_VALIDATE_BOOLEAN strips before it compares. */
  const FilterSpace: set<char> := {' ', '\t', '\r', '\U{000B}', '\n'}

  /** The words FILTER_VALIDATE_BOOLEAN reads as true, compared case-insensitively. */
  const TrueWords: set<string> := {"1", "true", "on", "yes"}

  /** PHP's `(string)` of a scalar: true is "1", false and null are "". */
  function StringOf(v: Value): string
  {
    match v
    case Str(s) => s
    case Flag(b) => if b then "1" else ""
    case Null => ""
  }

  /** filter_var($v, FILTER_VALIDATE_BOOLEAN) without FILTER_NULL_ON_FAILURE: anything not true is false. */
  function FilterBool(v: Value): bool
  {
    TrueText(StringOf(v))
  }

  /** The text is one of the true words once trimmed and lower-cased. */
  predicate TrueText(s: string)
  {
    Php.Lower(Php.Trim(s, FilterSpace)) in TrueWords
  }

  /** What setConfigValue stores for an option of the given type. */
  function Coerce(kind: OptionType, v: Value): (r: Value)
    ensures HasType(r, kind)
  {
    match kind
    case BoolOption => Flag(FilterBool(v))
    case StringOption => Str(StringOf(v))
  }

  /** A value that already has the option's type goes through the coercion unchanged. */
  lemma CoerceKeepsTyped(kind: OptionType, v: Value)
    requires HasType(v, kind)
    ensures Coerce(kind, v) == v
  {
    if v == Flag(true) {
      assert Php.Trim("1", FilterSpace) == "1";
      assert Php.Lower("1") == "1";
    }
  }

  /** Coercing twice is coercing once. */
  lemma CoerceIdempotent(kind: OptionType, v: Value)
    ensures Coerce(kind, Coerce(kind, v)) == Coerce(kind, v)
  {
    CoerceKeepsTyped(kind, Coerce(kind, v));
  }

  /** A table setConfig can fold over: one row per name, each default of its own type. */
  predicate WellFormed(table: seq<Setting>)
  {
    DistinctNames(table) && forall i :: 0 <= i < |table| ==> HasType(table[i].default, table[i].kind)
  }

  /** configValues is such a table. */
  lemma DefaultsTyped()
    ensures WellFormed(ConfigValues)
  {
    assert forall i :: 0 <= i < |ConfigValues| ==> HasType(ConfigValues[i].default, ConfigValues[i].kind);
    NamesDistinct();
  }

  /** No two rows of configValues share a name. */
  lemma NamesDistinct()
    ensures DistinctNames(ConfigValues)
  {
    var t := ConfigValues;
    forall i, j | 0 <= i < j < |t|
      ensures t[i].name != t[j].name
    {
      assert |t[i].name| != |t[j].name| || t[i].name[0] != t[j].name[0] || t[i].name[9] != t[j].name[9];
    }
  }

  /** In a table with one row per name, looking up a row's name finds that row. */
  lemma {:induction false} SettingAt(table: seq<Setting>, i: nat)
    requires DistinctNames(table) && i < |table|
    ensures SettingIn(table, table[i].name) == Some(table[i])
  {
    if i > 0 {
      assert table[0].name != table[i].name;
      SettingAt(table[1..], i - 1);
    }
  }

  /** A word without surrounding whitespace is read by its lower-case form alone. */
  lemma FilterWord(s: string)
    requires |s| > 0 && s[0] !in FilterSpace && s[|s| - 1] !in FilterSpace
    ensures FilterBool(Str(s)) <==> Php.Lower(s) in TrueWords
  {
    Php.TrimNothing(s, FilterSpace);
  }

  /** true is read as true, as `(string)` makes it "1". */
  lemma FilterBoolTrue()
    ensures FilterBool(Flag(true))
  {
    FilterWord("1");
    assert Php.Lower("1") == "1";
  }

  /** false and null are read as false, as `(string)` makes them "". */
  lemma FilterBoolFalse()
    ensures !FilterBool(Flag(false)) && !FilterBool(Null)
  {
    var t := Php.Trim("", FilterSpace);
    assert |Php.Lower(t)| == 0;
  }

  lemma SpaceKeepsCase()
    ensures forall c :: Php.LowerChar(c) in FilterSpace <==> c in FilterSpace
  {
  }

  /** FILTER_VALIDATE_BOOLEAN ignores case: "TRUE", "Yes" and "On" read as true. */
  lemma FilterBoolIgnoresCase(s: string)
    ensures FilterBool(Str(Php.Lower(s))) == FilterBool(Str(s))
  {
    SpaceKeepsCase();
    var left := Php.TrimLeft(s, FilterSpace);
    var t := Php.TrimRight(left, FilterSpace);
    Php.TrimLeftLower(s, FilterSpace);
    Php.TrimRightLower(left, FilterSpace);
    Php.LowerTwice(t);
  }

  /** FILTER_VALIDATE_BOOLEAN ignores whitespace around the word: " yes\n" reads as "yes". */
  lemma FilterBoolIgnoresPadding(w1: string, s: string, w2: string)
    requires forall i :: 0 <= i < |w1| ==> w1[i] in FilterSpace
    requires forall i :: 0 <= i < |w2| ==> w2[i] in FilterSpace
    ensures FilterBool(Str(w1 + s + w2)) == FilterBool(Str(s))
  {
    Php.TrimPadding(w1, s, w2, FilterSpace);
  }

  // ---------------------------------------------------------------------
  // setConfig as a fold over the table

  /** `isset($data[$key])`: present and not null. */
  predicate IsSet(data: map<string, Value>, key: string)
  {
    key in data && data[key] != Null
  }

  /** What the loop of setConfig hands to setConfigValue for one option. */
  function Chosen(data: map<string, Value>, s: Setting): Value
  {
    if IsSet(data, s.name) then data[s.name] else s.default
  }

  /** The bag after setConfig has visited the given rows, in order. */
  function SetAll(config: map<string, Value>, data: map<string, Value>, table: seq<Setting>): map<string, Value>
    decreases |table|
  {
    if |table| == 0 then config
    else
      var s := table[|table| - 1];
      SetAll(config, data, table[..|table| - 1])[s.name := Coerce(s.kind, Chosen(data, s))]
  }

  /** One more row visited. */
  lemma SetAllSnoc(config: map<string, Value>, data: map<string, Value>, table: seq<Setting>, i: nat)
    requires i < |table|
    ensures SetAll(config, data, table[..i + 1]) ==
      SetAll(config, data, table[..i])[table[i].name := Coerce(table[i].kind, Chosen(data, table[i]))]
  {
    assert table[..i + 1][..i] == table[..i];
  }

  /** Each visited row's option holds its coerced value: with one row per name, no later row overwrites it. */
  lemma {:induction false} SetAllSets(config: map<string, Value>, data: map<string, Value>, table: seq<Setting>)
    requires DistinctNames(table)
    ensures forall i :: 0 <= i < |table| ==>
      (table[i].name in SetAll(config, data, table) &&
       SetAll(config, data, table)[table[i].name] == Coerce(table[i].kind, Chosen(data, table[i])))
    decreases |table|
  {
    if |table| > 0 {
      var init := table[..|table| - 1];
      assert DistinctNames(init) by {
        assert forall i :: 0 <= i < |init| ==> init[i] == table[i];
      }
      SetAllSets(config, data, init);
      var last := |table| - 1;
      forall i | 0 <= i < last
        ensures table[i].name in SetAll(config, data, table)
        ensures SetAll(config, data, table)[table[i].name] == Coerce(table[i].kind, Chosen(data, table[i]))
      {
        assert init[i] == table[i];
        assert table[i].name != table[last].name;
      }
    }
  }

  /** A key no visited row names keeps its place and value. */
  lemma {:induction false} SetAllOther(config: map<string, Value>, data: map<string, Value>, table: seq<Setting>, k: string)
    requires forall i :: 0 <= i < |table| ==> table[i].name != k
    ensures k in SetAll(config, data, table) <==> k in config
    ensures k in config ==> SetAll(config, data, table)[k] == config[k]
    decreases |table|
  {
    if |table| > 0 {
      var init := table[..|table| - 1];
      assert forall i :: 0 <= i < |init| ==> init[i] == table[i];
      SetAllOther(config, data, init, k);
    }
  }

  /** After visiting the rows: every visited option holds its coerced value, every other key is untouched. */
  lemma SetAllMeaning(config: map<string, Value>, data: map<string, Value>, table: seq<Setting>)
    requires DistinctNames(table)
    ensures forall s :: s in table ==>
      (s.name in SetAll(config, data, table) && SetAll(config, data, table)[s.name] == Coerce(s.kind, Chosen(data, s)))
    ensures forall k :: SettingIn(table, k).None? ==>
      ((k in SetAll(config, data, table) <==> k in config) && (k in config ==> SetAll(config, data, table)[k] == config[k]))
  {
    SetAllSets(config, data, table);
    forall s | s in table
      ensures s.name in SetAll(config, data, table) && SetAll(config, data, table)[s.name] == Coerce(s.kind, Chosen(data, s))
    {
      var i :| 0 <= i < |table| && table[i] == s;
    }
    forall k | SettingIn(table, k).None?
      ensures (k in SetAll(config, data, table) <==> k in config) && (k in config ==> SetAll(config, data, table)[k] == config[k])
    {
      SetAllOther(config, data, table, k);
    }
  }

  /** What setConfig leaves in the bag: every option of configValues from the data when set there, else its default, coerced to its type; every other key as it was. */
  lemma SetConfigMeaning(config: map<string, Value>, data: map<string, Value>)
    ensures forall s :: s in ConfigValues ==>
      (s.name in SetAll(config, data, ConfigValues) && SetAll(config, data, ConfigValues)[s.name] == Coerce(s.kind, Chosen(data, s)))
    ensures forall k :: SettingOf(k).None? ==>
      ((k in SetAll(config, data, ConfigValues) <==> k in config) && (k in config ==> SetAll(config, data, ConfigValues)[k] == config[k]))
  {
    DefaultsTyped();
    SetAllMeaning(config, data, ConfigValues);
  }

  /** After setConfig every option of the table is set, with its own type, and re-reading the saved bag changes nothing. */
  lemma ConfigReloads(table: seq<Setting>, config: map<string, Value>, data: map<string, Value>, again: map<string, Value>)
    requires WellFormed(table)
    ensures forall s :: s in table ==>
      (s.name in SetAll(config, data, table) && HasType(SetAll(config, data, table)[s.name], s.kind))
    ensures forall s :: s in table ==>
      (s.name in SetAll(config, data, table) && s.name in SetAll(again, SetAll(config, data, table), table) &&
       SetAll(again, SetAll(config, data, table), table)[s.name] == SetAll(config, data, table)[s.name])
  {
    var saved := SetAll(config, data, table);
    SetAllMeaning(config, data, table);
    SetAllMeaning(again, saved, table);
    forall s | s in table
      ensures SetAll(again, saved, table)[s.name] == saved[s.name]
    {
      assert IsSet(saved, s.name);
      CoerceKeepsTyped(s.kind, saved[s.name]);
    }
  }

  /** Without a config file, every option takes its default. */
  lemma EmptyDataGivesDefaults(table: seq<Setting>, config: map<string, Value>)
    requires WellFormed(table)
    ensures forall s :: s in table ==> s.name in SetAll(config, map[], table) && SetAll(config, map[], table)[s.name] == s.default
  {
    SetAllMeaning(config, map[], table);
    forall s | s in table
      ensures SetAll(config, map[], table)[s.name] == s.default
    {
      var i :| 0 <= i < |table| && table[i] == s;
      CoerceKeepsTyped(s.kind, s.default);
    }
  }

  // ---------------------------------------------------------------------
  // The unit of convertFilesize

  /** The number of decimal digits of a natural number. */
  function Digits(n: nat): (r: nat)
    ensures r >= 1
  {
    if n < 10 then 1 else 1 + Digits(n / 10)
  }

  /** `strlen` of an integer: its digits, and one more for a minus sign. */
  function DecimalLength(n: int): (r: nat)
    ensures r >= 1
  {
    if n < 0 then 1 + Digits(-n) else Digits(n)
  }

  function Pow10(e: nat): (r: nat)
    ensures r >= 1
  {
    if e == 0 then 1 else 10 * Pow10(e - 1)
  }

  /** 1000^k. */
  function Pow1000(k: nat): nat
  {
    Pow10(3 * k)
  }

  /** `$bytes ?: 0`: a missing size (null) and zero both become 0. */
  function BytesOrZero(bytes: Option<int>): int
  {
    if bytes.None? then 0 else bytes.value
  }

  /** `floor((strlen($bytes) - 1) / 3)`. */
  function UnitIndex(bytes: Option<int>): nat
  {
    (DecimalLength(BytesOrZero(bytes)) - 1) / 3
  }

  const Units: seq<string> := ["B", "kB", "MB", "GB", "TB", "PB", "EB", "ZB", "YB"]

  /** `@$size[$factor]`: past the last unit the lookup gives null, printed as nothing. */
  function UnitSuffix(bytes: Option<int>): (r: string)
    ensures UnitIndex(bytes) < |Units| ==> r == Units[UnitIndex(bytes)]
    ensures UnitIndex(bytes) >= |Units| ==> r == ""
  {
    var i := UnitIndex(bytes);
    if i < |Units| then Units[i] else ""
  }

  /** A number has d digits exactly when it lies between 10^(d-1) and 10^d. */
  lemma {:induction false} DigitsBounds(n: nat)
    ensures n < Pow10(Digits(n))
    ensures n >= 1 ==> Pow10(Digits(n) - 1) <= n
  {
    if n >= 10 {
      DigitsBounds(n / 10);
    }
  }

  lemma {:induction false} Pow10Monotone(e: nat, f: nat)
    requires e <= f
    ensures Pow10(e) <= Pow10(f)
    decreases f
  {
    if e < f {
      Pow10Monotone(e, f - 1);
    }
  }

  /** The unit index of a positive size is the k with 1000^k <= size < 1000^(k+1). */
  lemma UnitIndexBounds(n: nat)
    requires n >= 1
    ensures Pow1000(UnitIndex(Some(n))) <= n < Pow1000(UnitIndex(Some(n)) + 1)
  {
    var d := Digits(n);
    var k := UnitIndex(Some(n));
    assert k == (d - 1) / 3;
    DigitsBounds(n);
    Pow10Monotone(3 * k, d - 1);
    Pow10Monotone(d, 3 * (k + 1));
  }

  /** Only the index the bounds pick is the unit index: the two say the same. */
  lemma UnitIndexUnique(n: nat, k: nat)
    requires n >= 1
    ensures UnitIndex(Some(n)) == k <==> Pow1000(k) <= n < Pow1000(k + 1)
  {
    var i := UnitIndex(Some(n));
    UnitIndexBounds(n);
    if Pow1000(k) <= n < Pow1000(k + 1) && i != k {
      if i < k {
        Pow10Monotone(3 * (i + 1), 3 * k);
      } else {
        Pow10Monotone(3 * (k + 1), 3 * i);
      }
    }
  }

  /** A missing or zero size is shown in bytes; so is every size below 1000. */
  lemma SmallSizesInBytes(bytes: Option<int>)
    requires bytes.None? || 0 <= bytes.value < 1000
    ensures UnitSuffix(bytes) == "B"
  {
    var b := BytesOrZero(bytes);
    if b >= 10 {
      assert Digits(b) == 1 + Digits(b / 10);
      if b >= 100 {
        assert Digits(b / 10) == 1 + Digits(b / 10 / 10);
        assert b / 10 / 10 < 10;
      }
    }
    assert Digits(b) <= 3;
  }

  /** PHP_INT_MAX on a 64-bit build: 2^63 - 1. */
  const PhpIntMax: nat := 0x7FFF_FFFF_FFFF_FFFF

  /**
   * Every size a PHP integer can hold has a unit in the table: it has at most
   * 19 digits, so the index is at most 6 (EB) and `@$size[$factor]` is never null.
   */
  lemma IntSizesHaveUnit(n: nat)
    requires n <= PhpIntMax
    ensures UnitIndex(Some(n)) <= 6 < |Units|
  {
    Pow10Nineteen();
    DigitsBelow(n, 19);
  }

  /** 10^19, a little above PHP_INT_MAX. */
  lemma Pow10Nineteen()
    ensures Pow10(19) == 10_000_000_000_000_000_000
  {
    assert Pow10(3) == 1000;
    assert Pow10(6) == 1000 * 1000;
    assert Pow10(9) == 1000 * 1000 * 1000;
    assert Pow10(12) == 1000 * 1000 * 1000 * 1000;
    assert Pow10(15) == 1000 * 1000 * 1000 * 1000 * 1000;
    assert Pow10(18) == 1000 * 1000 * 1000 * 1000 * 1000 * 1000;
  }

  /** A number below 10^e has at most e digits. */
  lemma {:induction false} DigitsBelow(n: nat, e: nat)
    requires 1 <= e && n < Pow10(e)
    ensures Digits(n) <= e
    decreases e
  {
    if n >= 10 {
      assert e >= 2 by {
        assert Pow10(1) == 10;
      }
      assert n / 10 < Pow10(e - 1);
      DigitsBelow(n / 10, e - 1);
    }
  }

  // ---------------------------------------------------------------------
  // listNodes: trash filter and name order

  /** A node in the trash carries the status "TRASH". */
  predicate InTrash(n: NodeStore.Node)
  {
    n.status == "TRASH"
  }

  /** PHP truthiness of a bag value. */
  predicate Truthy(v: Value)
  {
    match v
    case Str(s) => !Php.Falsy(s)
    case Flag(b) => b
    case Null => false
  }

  /** The nodes listNodes prints, in order: trashed ones only when the trash is shown. */
  function Visible(nodes: seq<NodeStore.Node>, showTrash: bool): (r: seq<NodeStore.Node>)
    ensures |r| <= |nodes|
  {
    if |nodes| == 0 then []
    else (if InTrash(nodes[0]) && !showTrash then [] else [nodes[0]]) + Visible(nodes[1..], showTrash)
  }

  /** A node is printed exactly when it is in the input and either not trashed or the trash is shown; showing the trash prints everything. */
  lemma {:induction false} VisibleMembers(nodes: seq<NodeStore.Node>, showTrash: bool)
    ensures forall n :: n in Visible(nodes, showTrash) <==> n in nodes && (showTrash || !InTrash(n))
    ensures showTrash ==> Visible(nodes, showTrash) == nodes
  {
    if |nodes| > 0 {
      VisibleMembers(nodes[1..], showTrash);
      assert nodes == [nodes[0]] + nodes[1..];
    }
  }

  /** The usort comparator of the name sort, read as "a may come before b". */
  predicate NameLe(a: NodeStore.Node, b: NodeStore.Node)
  {
    Php.StrCaseCmp(a.name, b.name) <= 0
  }

  predicate SortedByName(s: seq<NodeStore.Node>)
  {
    forall i, j :: 0 <= i < j < |s| ==> NameLe(s[i], s[j])
  }

  /** One insertion step: x goes before the first node it may precede. */
  function Insert(x: NodeStore.Node, s: seq<NodeStore.Node>): (r: seq<NodeStore.Node>)
    ensures multiset(r) == multiset(s) + multiset{x}
    ensures SortedByName(s) ==> SortedByName(r)
  {
    if |s| == 0 then [x]
    else if NameLe(x, s[0]) then
      InsertFront(x, s);
      [x] + s
    else
      var rest := Insert(x, s[1..]);
      Php.CompareFlip(Php.Lower(x.name), Php.Lower(s[0].name));
      assert s == [s[0]] + s[1..];
      InsertBehind(s[0], x, s[1..], rest);
      [s[0]] + rest
  }

  lemma InsertFront(x: NodeStore.Node, s: seq<NodeStore.Node>)
    requires |s| > 0 && NameLe(x, s[0])
    ensures SortedByName(s) ==> SortedByName([x] + s)
  {
    if SortedByName(s) {
      var r := [x] + s;
      forall i, j | 0 <= i < j < |r|
        ensures NameLe(r[i], r[j])
      {
        if i > 0 {
          assert r[i] == s[i - 1] && r[j] == s[j - 1];
        } else if j > 1 {
          assert NameLe(s[0], s[j - 1]);
          Php.CompareTransitive(Php.Lower(x.name), Php.Lower(s[0].name), Php.Lower(s[j - 1].name));
        }
      }
    }
  }

  lemma InsertBehind(y: NodeStore.Node, x: NodeStore.Node, s: seq<NodeStore.Node>, rest: seq<NodeStore.Node>)
    requires NameLe(y, x)
    requires multiset(rest) == multiset(s) + multiset{x}
    requires SortedByName([y] + s) ==> SortedByName(rest)
    ensures SortedByName([y] + s) ==> SortedByName([y] + rest)
  {
    if SortedByName([y] + s) {
      HeadFirst([y] + s);
      assert ([y] + s)[1..] == s;
      forall z | z in rest
        ensures NameLe(y, z)
      {
        assert z in multiset(rest);
        if z != x {
          assert multiset(rest)[z] == multiset(s)[z];
          assert z in s;
        }
      }
      SortedCons(y, rest);
    }
  }

  /** The first node of a sorted sequence may precede every later one. */
  lemma HeadFirst(s: seq<NodeStore.Node>)
    requires |s| > 0 && SortedByName(s)
    ensures forall z :: z in s[1..] ==> NameLe(s[0], z)
  {
    forall z | z in s[1..]
      ensures NameLe(s[0], z)
    {
      var k :| 0 <= k < |s[1..]| && s[1..][k] == z;
      assert s[k + 1] == z;
    }
  }

  /** A node that may precede every node of a sorted sequence can go in front of it. */
  lemma SortedCons(x: NodeStore.Node, s: seq<NodeStore.Node>)
    requires forall z :: z in s ==> NameLe(x, z)
    requires SortedByName(s)
    ensures SortedByName([x] + s)
  {
    var r := [x] + s;
    forall i, j | 0 <= i < j < |r|
      ensures NameLe(r[i], r[j])
    {
      if i > 0 {
        assert r[i] == s[i - 1] && r[j] == s[j - 1];
      } else {
        assert r[j] == s[j - 1];
        assert r[j] in s;
      }
    }
  }

  /** usort with the strcasecmp comparator: ties keep their input order. */
  function SortByName(nodes: seq<NodeStore.Node>): (r: seq<NodeStore.Node>)
    ensures multiset(r) == multiset(nodes)
    ensures SortedByName(r)
  {
    if |nodes| == 0 then []
    else
      assert nodes == [nodes[0]] + nodes[1..];
      Insert(nodes[0], SortByName(nodes[1..]))
  }

  /** The comparator orders any two names one way or the other, and transitively: a total preorder. */
  lemma NameOrderTotal(a: NodeStore.Node, b: NodeStore.Node, c: NodeStore.Node)
    ensures NameLe(a, b) || NameLe(b, a)
    ensures NameLe(a, b) && NameLe(b, c) ==> NameLe(a, c)
    ensures NameLe(a, b) && NameLe(b, a) <==> Php.Lower(a.name) == Php.Lower(b.name)
  {
    Php.CompareFlip(Php.Lower(a.name), Php.Lower(b.name));
    Php.CompareZero(Php.Lower(a.name), Php.Lower(b.name));
    if NameLe(a, b) && NameLe(b, c) {
      Php.CompareTransitive(Php.Lower(a.name), Php.Lower(b.name), Php.Lower(c.name));
    }
  }

  /** The nodes of a sequence that the filter keeps, counted with repeats. */
  lemma {:induction false} VisibleCount(nodes: seq<NodeStore.Node>, showTrash: bool, n: NodeStore.Node)
    ensures multiset(Visible(nodes, showTrash))[n] == if InTrash(n) && !showTrash then 0 else multiset(nodes)[n]
  {
    if |nodes| > 0 {
      var rest := nodes[1..];
      VisibleCount(rest, showTrash, n);
      assert multiset(nodes) == multiset{nodes[0]} + multiset(rest) by {
        assert nodes == [nodes[0]] + rest;
      }
      if InTrash(nodes[0]) && !showTrash {
        assert Visible(nodes, showTrash) == Visible(rest, showTrash);
      } else {
        assert Visible(nodes, showTrash) == [nodes[0]] + Visible(rest, showTrash);
      }
    }
  }

  /** Filtering a permutation gives a permutation of the filtered nodes. */
  lemma VisiblePermutation(a: seq<NodeStore.Node>, b: seq<NodeStore.Node>, showTrash: bool)
    requires multiset(a) == multiset(b)
    ensures multiset(Visible(a, showTrash)) == multiset(Visible(b, showTrash))
  {
    forall n
      ensures multiset(Visible(a, showTrash))[n] == multiset(Visible(b, showTrash))[n]
    {
      VisibleCount(a, showTrash, n);
      VisibleCount(b, showTrash, n);
    }
  }

  /** Filtering a sorted sequence keeps it sorted. */
  lemma {:induction false} VisibleSorted(nodes: seq<NodeStore.Node>, showTrash: bool)
    requires SortedByName(nodes)
    ensures SortedByName(Visible(nodes, showTrash))
  {
    if |nodes| > 0 {
      var rest := Visible(nodes[1..], showTrash);
      VisibleSorted(nodes[1..], showTrash);
      if !(InTrash(nodes[0]) && !showTrash) {
        VisibleMembers(nodes[1..], showTrash);
        HeadFirst(nodes);
        SortedCons(nodes[0], rest);
      }
    }
  }

  /** Only 0 (by name) and 1 (by time) are sort orders; the name sort is modelled. */
  const SortByNameOrder: int := 0

  /** What the cache store factory builds. */
  datatype CacheStore =
    | SqliteStore(email: Value, configPath: string)
    | MysqlStore(host: Value, database: Value, username: Value, password: Value)

  /** The command's config bag and configuration directory. */
  class Command {
    var config: map<string, Value>
    var configPath: string

    /** A command with an empty bag, before readConfig fills it. */
    constructor (configPath: string)
      ensures config == map[] && this.configPath == configPath
    {
      config := map[];
      this.configPath := configPath;
    }

    /** `$this->config[$key]`: null for a key the bag does not hold. */
    function Get(key: string): Value
      reads this
    {
      if key in config then config[key] else Null
    }

    /** setConfigValue: an option of the table takes the value coerced to its type; any other key is ignored. */
    method SetConfigValue(key: string, value: Value)
      modifies this
      ensures SettingOf(key).None? ==> config == old(config)
      ensures SettingOf(key).Some? ==> config == old(config)[key := Coerce(SettingOf(key).value.kind, value)]
      ensures configPath == old(configPath)
    {
      var setting := SettingOf(key);
      if setting.Some? {
        // the switch on the type and settype, as one coercion
        var v := Coerce(setting.value.kind, value);
        config := config[key := v];
      }
    }

    /** removeConfigValue: the option's default; a key outside the table reads a missing row and stores null. */
    method RemoveConfigValue(key: string)
      modifies this
      ensures SettingOf(key).Some? ==> config == old(config)[key := SettingOf(key).value.default]
      ensures SettingOf(key).None? ==> config == old(config)[key := Null]
      ensures configPath == old(configPath)
    {
      var setting := SettingOf(key);
      if setting.Some? {
        config := config[key := setting.value.default];
      } else {
        config := config[key := Null];
      }
    }

    /** setConfig with decoded (already flattened) data: each option of the table, in order, from the data if set there, else its default. */
    method SetConfig(data: map<string, Value>)
      modifies this
      ensures config == SetAll(old(config), data, ConfigValues)
      ensures configPath == old(configPath)
    {
      DefaultsTyped();
      var i := 0;
      while i < |ConfigValues|
        invariant i <= |ConfigValues|
        invariant config == SetAll(old(config), data, ConfigValues[..i])
        invariant configPath == old(configPath)
      {
        var s := ConfigValues[i];
        SettingAt(ConfigValues, i);
        SetAllSnoc(old(config), data, ConfigValues, i);
        if IsSet(data, s.name) {
          SetConfigValue(s.name, data[s.name]);
        } else {
          SetConfigValue(s.name, s.default);
        }
        i := i + 1;
      }
      assert ConfigValues[..i] == ConfigValues;
    }

    /** generateCacheStore: a store chosen by `database.driver`, or none for any other driver. */
    function GenerateCacheStore(): (r: Option<CacheStore>)
      reads this
      ensures Get("database.driver") == Str("sqlite") <==> r == Some(SqliteStore(Get("email"), configPath))
      ensures Get("database.driver") == Str("mysql") <==>
        r == Some(MysqlStore(Get("database.host"), Get("database.database"), Get("database.username"), Get("database.password")))
      ensures r.None? <==> Get("database.driver") !in {Str("sqlite"), Str("mysql")}
    {
      var driver := Get("database.driver");
      if driver == Str("sqlite") then Some(SqliteStore(Get("email"), configPath))
      else if driver == Str("mysql") then
        Some(MysqlStore(Get("database.host"), Get("database.database"), Get("database.username"), Get("database.password")))
      else None
    }

    /** Whether listNodes shows trashed nodes: `display.trash` is truthy. */
    predicate ShowTrash()
      reads this
    {
      Truthy(Get("display.trash"))
    }

    /**
     * listNodes: the nodes it prints, in the order it prints them. With the
     * name sort they are the visible nodes ordered by case-insensitive name;
     * with any other order they are the visible nodes of the input.
     */
    method ListNodes(nodes: seq<NodeStore.Node>, sortBy: int) returns (shown: seq<NodeStore.Node>)
      ensures sortBy == SortByNameOrder ==> shown == Visible(SortByName(nodes), ShowTrash())
      ensures sortBy == SortByNameOrder ==> SortedByName(shown)
      ensures multiset(shown) == multiset(Visible(nodes, ShowTrash()))
      ensures forall n :: n in shown <==> n in nodes && (ShowTrash() || !InTrash(n))
    {
      var ordered := if sortBy == SortByNameOrder then SortByName(nodes) else nodes;
      assert ordered == Ordered(nodes, sortBy);
      var showTrash := Truthy(Get("display.trash"));
      shown := [];
      var i := 0;
      while i < |ordered|
        invariant i <= |ordered|
        invariant shown == Visible(ordered[..i], showTrash)
      {
        VisibleStep(ordered, i, showTrash);
        if InTrash(ordered[i]) && !showTrash {
          i := i + 1;
          continue;
        }
        shown := shown + [ordered[i]];
        i := i + 1;
      }
      assert ordered[..i] == ordered;
      assert shown == Visible(Ordered(nodes, sortBy), showTrash);
      ListedFacts(nodes, sortBy, showTrash);
    }
  }

  /** The input as listNodes sorts it: by name for the name sort, as given otherwise. */
  function Ordered(nodes: seq<NodeStore.Node>, sortBy: int): seq<NodeStore.Node>
  {
    if sortBy == SortByNameOrder then SortByName(nodes) else nodes
  }

  /** What the printed nodes are: the visible ones, each as often as in the input, sorted by name for the name sort. */
  lemma ListedFacts(nodes: seq<NodeStore.Node>, sortBy: int, showTrash: bool)
    ensures sortBy == SortByNameOrder ==> SortedByName(Visible(Ordered(nodes, sortBy), showTrash))
    ensures multiset(Visible(Ordered(nodes, sortBy), showTrash)) == multiset(Visible(nodes, showTrash))
    ensures forall n :: n in Visible(Ordered(nodes, sortBy), showTrash) <==> n in nodes && (showTrash || !InTrash(n))
  {
    var ordered := Ordered(nodes, sortBy);
    VisiblePermutation(ordered, nodes, showTrash);
    if sortBy == SortByNameOrder {
      VisibleSorted(ordered, showTrash);
    }
    SameMembers(ordered, nodes);
    VisibleMembers(ordered, showTrash);
  }

  lemma SameMembers(a: seq<NodeStore.Node>, b: seq<NodeStore.Node>)
    requires multiset(a) == multiset(b)
    ensures forall n :: n in a <==> n in b
  {
    forall n
      ensures n in a <==> n in b
    {
      assert n in a <==> n in multiset(a);
      assert n in b <==> n in multiset(b);
    }
  }

  /** The loop of listNodes taken one node further. */
  lemma VisibleStep(ordered: seq<NodeStore.Node>, i: nat, showTrash: bool)
    requires i < |ordered|
    ensures Visible(ordered[..i + 1], showTrash) ==
      Visible(ordered[..i], showTrash) + (if InTrash(ordered[i]) && !showTrash then [] else [ordered[i]])
  {
    VisibleSnoc(ordered[..i], ordered[i], showTrash);
    assert ordered[..i + 1] == ordered[..i] + [ordered[i]];
  }

  /** The filter taken one node further. */
  lemma {:induction false} VisibleSnoc(nodes: seq<NodeStore.Node>, n: NodeStore.Node, showTrash: bool)
    ensures Visible(nodes + [n], showTrash) == Visible(nodes, showTrash) + (if InTrash(n) && !showTrash then [] else [n])
    decreases |nodes|
  {
    if |nodes| > 0 {
      VisibleSnoc(nodes[1..], n, showTrash);
      assert (nodes + [n])[1..] == nodes[1..] + [n];
    }
  }
}
