/**
 * Models of the PHP built-ins the core relies on: `implode`, `explode`,
 * `trim`, string truthiness, `array_filter` (which keeps the keys of the
 * surviving elements), `substr($s, -1)` and ASCII case folding.
 */
module Php {
  import opened Wrappers

  /** `implode($sep, $parts)`. */
  function Implode(sep: string, parts: seq<string>): string
  {
    if |parts| == 0 then ""
    else if |parts| == 1 then parts[0]
    else Implode(sep, parts[..|parts| - 1]) + sep + parts[|parts| - 1]
  }

  /** `explode($c, $s)` for a one-character separator: never empty. */
  function Explode(c: char, s: string): (r: seq<string>)
    ensures |r| >= 1
  {
    if |s| == 0 then [""]
    else
      var rest := Explode(c, s[1..]);
      if s[0] == c then [""] + rest else [[s[0]] + rest[0]] + rest[1..]
  }

  /** PHP's truthiness of a string: only "" and "0" are falsy. */
  predicate Falsy(s: string)
  {
    s == "" || s == "0"
  }

  /** `substr($s, -strlen($suffix)) === $suffix`, and SQL `LIKE '%suffix'` without wildcards. */
  predicate EndsWith(s: string, suffix: string)
  {
    |suffix| <= |s| && s[|s| - |suffix|..] == suffix
  }

  predicate StartsWith(s: string, prefix: string)
  {
    |prefix| <= |s| && s[..|prefix|] == prefix
  }

  /** `ltrim($s, $chars)`. */
  function TrimLeft(s: string, chars: set<char>): (r: string)
    ensures |r| <= |s| && r == s[|s| - |r|..]
    ensures |r| > 0 ==> r[0] !in chars
    ensures forall i :: 0 <= i < |s| - |r| ==> s[i] in chars
  {
    if |s| > 0 && s[0] in chars then TrimLeft(s[1..], chars) else s
  }

  /** `rtrim($s, $chars)`. */
  function TrimRight(s: string, chars: set<char>): (r: string)
    ensures |r| <= |s| && r == s[..|r|]
    ensures |r| > 0 ==> r[|r| - 1] !in chars
    ensures forall i :: |r| <= i < |s| ==> s[i] in chars
  {
    if |s| > 0 && s[|s| - 1] in chars then TrimRight(s[..|s| - 1], chars) else s
  }

  /** `trim($s, $chars)`. */
  function Trim(s: string, chars: set<char>): string
  {
    TrimRight(TrimLeft(s, chars), chars)
  }

  /** The characters `trim` strips when no list is given: " \t\n\r\0\x0B". */
  const DefaultTrimChars: set<char> := {' ', '\t', '\n', '\r', '\0', '\U{000B}'}

  /** A `string|array` path argument: an array of folder names or a string. */
  datatype PathArg = PathList(items: seq<string>) | PathText(text: string)

  /** One element of a PHP array with integer keys. */
  datatype Entry = Entry(key: nat, value: string)

  /** The array `explode` builds: keys 0, 1, 2, ... in order. */
  function Enumerate(values: seq<string>, from: nat): (r: seq<Entry>)
    ensures |r| == |values|
    ensures forall i :: 0 <= i < |r| ==> r[i] == Entry(from + i, values[i])
  {
    if |values| == 0 then [] else [Entry(from, values[0])] + Enumerate(values[1..], from + 1)
  }

  /** `array_filter($a, $keep)` on a list: the kept elements keep their original keys. */
  function ArrayFilter(a: seq<Entry>, keep: string -> bool): (r: seq<Entry>)
    ensures |r| <= |a|
    ensures forall e :: e in r ==> e in a && keep(e.value)
    ensures forall e :: e in a && keep(e.value) ==> e in r
  {
    if |a| == 0 then []
    else (if keep(a[0].value) then [a[0]] else []) + ArrayFilter(a[1..], keep)
  }

  /** The values of an array, in order. */
  function Values(a: seq<Entry>): (r: seq<string>)
    ensures |r| == |a|
    ensures forall i :: 0 <= i < |a| ==> r[i] == a[i].value
  {
    if |a| == 0 then [] else [a[0].value] + Values(a[1..])
  }

  /** `$a[$k]`: the value stored under key `k`, or null. */
  function Lookup(a: seq<Entry>, k: nat): (r: Option<string>)
    ensures r.Some? <==> exists e :: e in a && e.key == k
    ensures r.Some? ==> Entry(k, r.value) in a
  {
    if |a| == 0 then None
    else if a[0].key == k then Some(a[0].value)
    else Lookup(a[1..], k)
  }

  /** An array whose keys are 0, 1, 2, ... (a PHP "list"). */
  predicate IsList(a: seq<Entry>)
  {
    forall i :: 0 <= i < |a| ==> a[i].key == i
  }

  /** ASCII lower-casing, as `strtolower` and `strcasecmp` do it. */
  function LowerChar(c: char): (r: char)
    ensures 'A' <= c <= 'Z' ==> 'a' <= r <= 'z'
    ensures !('A' <= c <= 'Z') ==> r == c
  {
    if 'A' <= c <= 'Z' then (c as int + 32) as char else c
  }

  function Lower(s: string): (r: string)
    ensures |r| == |s|
    ensures forall i :: 0 <= i < |s| ==> r[i] == LowerChar(s[i])
  {
    if |s| == 0 then [] else [LowerChar(s[0])] + Lower(s[1..])
  }

  // ---------------------------------------------------------------------
  // implode and explode are inverse to each other

  /** Joining from the front: `implode(s, [a] + rest) == a . s . implode(s, rest)`. */
  lemma {:induction false} ImplodeCons(sep: string, a: string, rest: seq<string>)
    requires |rest| >= 1
    ensures Implode(sep, [a] + rest) == a + sep + Implode(sep, rest)
  {
    if |rest| > 1 {
      var front := rest[..|rest| - 1];
      assert ([a] + rest)[..|rest|] == [a] + front;
      ImplodeCons(sep, a, front);
    }
  }

  /** No piece produced by `explode` contains the separator. */
  lemma {:induction false} ExplodePiecesFree(c: char, s: string)
    ensures forall i :: 0 <= i < |Explode(c, s)| ==> c !in Explode(c, s)[i]
  {
    if |s| > 0 {
      ExplodePiecesFree(c, s[1..]);
    }
  }

  /** Every piece of `explode` is a sub-string of the input: it is no longer than it. */
  lemma {:induction false} ExplodePiecesShort(c: char, s: string)
    ensures forall i :: 0 <= i < |Explode(c, s)| ==> |Explode(c, s)[i]| <= |s|
  {
    if |s| > 0 {
      ExplodePiecesShort(c, s[1..]);
    }
  }

  /** `implode($c, explode($c, $s)) === $s`. */
  lemma {:induction false} ImplodeExplode(c: char, s: string)
    ensures Implode([c], Explode(c, s)) == s
  {
    if |s| > 0 {
      var rest := Explode(c, s[1..]);
      assert Implode([c], rest) == s[1..] by {
        ImplodeExplode(c, s[1..]);
      }
      if s[0] == c {
        assert Implode([c], Explode(c, s)) == s by {
          assert Explode(c, s) == [""] + rest;
          ImplodeCons([c], "", rest);
          assert s == [c] + s[1..];
        }
      } else if |rest| == 1 {
        assert Implode([c], Explode(c, s)) == s by {
          assert Explode(c, s) == [[s[0]] + rest[0]];
          assert s == [s[0]] + s[1..];
        }
      } else {
        assert Implode([c], Explode(c, s)) == s by {
          var tail := rest[1..];
          assert Explode(c, s) == [[s[0]] + rest[0]] + tail;
          assert rest == [rest[0]] + tail;
          ImplodeCons([c], [s[0]] + rest[0], tail);
          ImplodeCons([c], rest[0], tail);
          assert s == [s[0]] + s[1..];
        }
      }
    }
  }

  /** A string without the separator is a single piece. */
  lemma {:induction false} ExplodeFree(c: char, x: string)
    requires c !in x
    ensures Explode(c, x) == [x]
  {
    if |x| > 0 {
      ExplodeFree(c, x[1..]);
      assert x == [x[0]] + x[1..];
    }
  }

  /** Splitting at the first separator. */
  lemma {:induction false} ExplodeAppend(c: char, x: string, y: string)
    requires c !in x
    ensures Explode(c, x + [c] + y) == [x] + Explode(c, y)
  {
    if |x| == 0 {
      assert ([c] + y)[1..] == y;
    } else {
      assert (x + [c] + y)[1..] == x[1..] + [c] + y;
      ExplodeAppend(c, x[1..], y);
      assert x == [x[0]] + x[1..];
    }
  }

  /** `explode($c, implode($c, $parts)) === $parts` when no part contains the separator. */
  lemma {:induction false} ExplodeImplode(c: char, parts: seq<string>)
    requires |parts| >= 1
    requires forall i :: 0 <= i < |parts| ==> c !in parts[i]
    ensures Explode(c, Implode([c], parts)) == parts
  {
    if |parts| == 1 {
      ExplodeFree(c, parts[0]);
    } else {
      ImplodeCons([c], parts[0], parts[1..]);
      ExplodeImplode(c, parts[1..]);
      ExplodeAppend(c, parts[0], Implode([c], parts[1..]));
      assert parts == [parts[0]] + parts[1..];
    }
  }

  /** The joined string ends with the last part. */
  lemma ImplodeEndsWithLast(sep: string, parts: seq<string>)
    requires |parts| >= 1
    ensures EndsWith(Implode(sep, parts), parts[|parts| - 1])
  {
  }

  // ---------------------------------------------------------------------
  // trim

  /** `trim` leaves nothing to strip at either end, and is idempotent. */
  lemma TrimEnds(s: string, chars: set<char>)
    ensures var r := Trim(s, chars); |r| > 0 ==> r[0] !in chars && r[|r| - 1] !in chars
    ensures Trim(Trim(s, chars), chars) == Trim(s, chars)
  {
    var l := TrimLeft(s, chars);
    var r := TrimRight(l, chars);
    if |r| > 0 {
      assert r[0] == l[0];
    }
  }

  /** `array_reverse` on a list. */
  function Reverse(s: seq<string>): (r: seq<string>)
    ensures |r| == |s|
    ensures forall i :: 0 <= i < |s| ==> r[i] == s[|s| - 1 - i]
  {
    if |s| == 0 then [] else Reverse(s[1..]) + [s[0]]
  }

  /** The kept elements of a list, in order (keys forgotten). */
  function FilterSeq(xs: seq<string>, keep: string -> bool): seq<string>
  {
    if |xs| == 0 then []
    else (if keep(xs[0]) then [xs[0]] else []) + FilterSeq(xs[1..], keep)
  }

  /** Reading the values of a filtered list gives the plain filtered list. */
  lemma {:induction false} ValuesOfFilter(xs: seq<string>, from: nat, keep: string -> bool)
    ensures Values(ArrayFilter(Enumerate(xs, from), keep)) == FilterSeq(xs, keep)
  {
    if |xs| > 0 {
      var a := Enumerate(xs, from);
      assert a[1..] == Enumerate(xs[1..], from + 1);
      ValuesOfFilter(xs[1..], from + 1, keep);
      var head := if keep(xs[0]) then [a[0]] else [];
      assert ArrayFilter(a, keep) == head + ArrayFilter(a[1..], keep);
      ValuesAppend(head, ArrayFilter(a[1..], keep));
    }
  }

  lemma {:induction false} ValuesAppend(a: seq<Entry>, b: seq<Entry>)
    ensures Values(a + b) == Values(a) + Values(b)
  {
  }

  /** Joining starts with the first part. */
  lemma {:induction false} ImplodeStartsWithFirst(sep: string, parts: seq<string>)
    requires |parts| >= 1
    ensures StartsWith(Implode(sep, parts), parts[0])
  {
    if |parts| > 1 {
      ImplodeCons(sep, parts[0], parts[1..]);
      assert parts == [parts[0]] + parts[1..];
    }
  }

  /** `r` sits in `s` at offset i, and everything of `s` before and after it is in `chars`. */
  predicate CutAt(s: string, r: string, i: nat, chars: set<char>)
  {
    i + |r| <= |s| && s[i..i + |r|] == r &&
    (forall k :: 0 <= k < i ==> s[k] in chars) &&
    (forall k :: i + |r| <= k < |s| ==> s[k] in chars)
  }

  /** `trim` only cuts characters of the list, and only at the two ends. */
  lemma TrimCut(s: string, chars: set<char>)
    ensures CutAt(s, Trim(s, chars), |s| - |TrimLeft(s, chars)|, chars)
  {
    var left := TrimLeft(s, chars);
    CutOfParts(s, left, TrimRight(left, chars), |s| - |left|, chars);
  }

  /** A piece cut from the front and then from the back of `s`, with only `chars` cut away. */
  lemma CutOfParts(s: string, left: string, r: string, i: nat, chars: set<char>)
    requires i + |left| == |s| && left == s[i..]
    requires |r| <= |left| && r == left[..|r|]
    requires forall k :: 0 <= k < i ==> s[k] in chars
    requires forall j :: |r| <= j < |left| ==> left[j] in chars
    ensures CutAt(s, r, i, chars)
  {
    assert s[i..][..|r|] == s[i..i + |r|];
    forall k | i + |r| <= k < |s|
      ensures s[k] in chars
    {
      assert s[k] == left[k - i];
    }
  }

  /** A string with nothing to strip at its ends is its own trim. */
  lemma TrimNothing(s: string, chars: set<char>)
    requires |s| > 0 && s[0] !in chars && s[|s| - 1] !in chars
    ensures Trim(s, chars) == s
  {
  }
  // ---------------------------------------------------------------------
  // strcmp and strcasecmp

  /** The sign of `strcmp`: the first differing character decides, a proper prefix comes first. */
  function Compare(a: string, b: string): (r: int)
    ensures -1 <= r <= 1
    decreases |a|
  {
    if |a| == 0 && |b| == 0 then 0
    else if |a| == 0 then -1
    else if |b| == 0 then 1
    else if a[0] < b[0] then -1
    else if a[0] > b[0] then 1
    else Compare(a[1..], b[1..])
  }

  /** The sign of `strcasecmp`: `strcmp` of the lower-cased strings. */
  function StrCaseCmp(a: string, b: string): int
  {
    Compare(Lower(a), Lower(b))
  }

  /** Compare is zero exactly on equal strings. */
  lemma {:induction false} CompareZero(a: string, b: string)
    ensures Compare(a, b) == 0 <==> a == b
    decreases |a|
  {
    if |a| > 0 && |b| > 0 && a[0] == b[0] {
      CompareZero(a[1..], b[1..]);
      assert a == [a[0]] + a[1..] && b == [b[0]] + b[1..];
    }
  }

  /** Swapping the arguments flips the sign, so any two strings are ordered one way or the other. */
  lemma {:induction false} CompareFlip(a: string, b: string)
    ensures Compare(a, b) == -Compare(b, a)
    decreases |a|
  {
    if |a| > 0 && |b| > 0 && a[0] == b[0] {
      CompareFlip(a[1..], b[1..]);
    }
  }

  /** Compare orders strings transitively. */
  lemma {:induction false} CompareTransitive(a: string, b: string, c: string)
    requires Compare(a, b) <= 0 && Compare(b, c) <= 0
    ensures Compare(a, c) <= 0
    decreases |a|
  {
    if |a| > 0 && |b| > 0 && |c| > 0 && a[0] == b[0] && b[0] == c[0] {
      CompareTransitive(a[1..], b[1..], c[1..]);
    }
  }
  // ---------------------------------------------------------------------
  // trim with surrounding padding and letter case

  lemma LowerTwice(s: string)
    ensures Lower(Lower(s)) == Lower(s)
  {
  }

  /** Left trimming commutes with lower-casing when the trimmed characters are no letters. */
  lemma {:induction false} TrimLeftLower(s: string, chars: set<char>)
    requires forall c :: LowerChar(c) in chars <==> c in chars
    ensures TrimLeft(Lower(s), chars) == Lower(TrimLeft(s, chars))
    decreases |s|
  {
    if |s| > 0 {
      assert Lower(s)[0] == LowerChar(s[0]);
      assert Lower(s)[1..] == Lower(s[1..]);
      TrimLeftLower(s[1..], chars);
    }
  }

  /** Right trimming commutes with lower-casing when the trimmed characters are no letters. */
  lemma {:induction false} TrimRightLower(s: string, chars: set<char>)
    requires forall c :: LowerChar(c) in chars <==> c in chars
    ensures TrimRight(Lower(s), chars) == Lower(TrimRight(s, chars))
    decreases |s|
  {
    if |s| > 0 {
      assert Lower(s)[|s| - 1] == LowerChar(s[|s| - 1]);
      assert Lower(s)[..|s| - 1] == Lower(s[..|s| - 1]);
      TrimRightLower(s[..|s| - 1], chars);
    }
  }

  /** Left trimming skips a prefix of trimmed characters. */
  lemma {:induction false} TrimLeftPadding(w: string, s: string, chars: set<char>)
    requires forall i :: 0 <= i < |w| ==> w[i] in chars
    ensures TrimLeft(w + s, chars) == TrimLeft(s, chars)
    decreases |w|
  {
    if |w| > 0 {
      assert (w + s)[0] == w[0];
      assert (w + s)[1..] == w[1..] + s;
      TrimLeftPadding(w[1..], s, chars);
    } else {
      assert w + s == s;
    }
  }

  /** Right trimming skips a suffix of trimmed characters. */
  lemma {:induction false} TrimRightPadding(s: string, w: string, chars: set<char>)
    requires forall i :: 0 <= i < |w| ==> w[i] in chars
    ensures TrimRight(s + w, chars) == TrimRight(s, chars)
    decreases |w|
  {
    if |w| > 0 {
      assert (s + w)[|s + w| - 1] == w[|w| - 1];
      assert (s + w)[..|s + w| - 1] == s + w[..|w| - 1];
      TrimRightPadding(s, w[..|w| - 1], chars);
    } else {
      assert s + w == s;
    }
  }

  /** Left trimming of a string with more text behind it. */
  lemma {:induction false} TrimLeftAppend(s: string, w: string, chars: set<char>)
    ensures TrimLeft(s, chars) != "" ==> TrimLeft(s + w, chars) == TrimLeft(s, chars) + w
    ensures TrimLeft(s, chars) == "" ==> TrimLeft(s + w, chars) == TrimLeft(w, chars)
    decreases |s|
  {
    if |s| == 0 {
      assert s + w == w;
    } else if s[0] in chars {
      assert (s + w)[0] == s[0];
      assert (s + w)[1..] == s[1..] + w;
      TrimLeftAppend(s[1..], w, chars);
    } else {
      assert (s + w)[0] == s[0];
    }
  }

  /** trim ignores padding of trimmed characters on both sides. */
  lemma TrimPadding(w1: string, s: string, w2: string, chars: set<char>)
    requires forall i :: 0 <= i < |w1| ==> w1[i] in chars
    requires forall i :: 0 <= i < |w2| ==> w2[i] in chars
    ensures Trim(w1 + s + w2, chars) == Trim(s, chars)
  {
    assert w1 + s + w2 == w1 + (s + w2);
    TrimLeftPadding(w1, s + w2, chars);
    TrimLeftAppend(s, w2, chars);
    var left := TrimLeft(s, chars);
    if left != "" {
      TrimRightPadding(left, w2, chars);
    } else {
      TrimLeftPadding(w2, "", chars);
      assert w2 + "" == w2;
    }
  }
}
