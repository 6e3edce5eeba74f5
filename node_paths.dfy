/**
 * The path and URL normalisers of src/CloudDrive/Node.php. Unlike the
 * CloudDrive helpers of the same name, getPathArray here drops only empty
 * pieces (a "0" folder survives) and getPathString trims whitespace and '/'
 * together, for strings and arrays alike.
 */
module NodePaths {
  import Php

  /** The characters Node::getPathString trims: PHP's default list and '/'. */
  const PathTrimChars: set<char> := Php.DefaultTrimChars + {'/'}

  /** getPathArray: an array is returned as it is; a string loses its empty pieces, which keep their keys. */
  function PathArray(path: Php.PathArg): (r: seq<Php.Entry>)
    ensures path.PathList? ==> Php.Values(r) == path.items && Php.IsList(r)
    ensures path.PathText? ==> Php.Values(r) == Php.FilterSeq(Php.Explode('/', path.text), (x: string) => x != "")
  {
    match path
    case PathList(items) =>
      assert Php.Values(Php.Enumerate(items, 0)) == items;
      Php.Enumerate(items, 0)
    case PathText(text) =>
      Php.ValuesOfFilter(Php.Explode('/', text), 0, (x: string) => x != "");
      Php.ArrayFilter(Php.Enumerate(Php.Explode('/', text), 0), (x: string) => x != "")
  }

  /** Every element of a string's path array is non-empty and holds no '/'. */
  lemma PathArrayClean(text: string)
    ensures forall e :: e in PathArray(Php.PathText(text)) ==> e.value != "" && '/' !in e.value
  {
    var pieces := Php.Explode('/', text);
    Php.ExplodePiecesFree('/', text);
    forall e | e in PathArray(Php.PathText(text))
      ensures e.value != "" && '/' !in e.value
    {
      var all := Php.Enumerate(pieces, 0);
      assert e in all;
      var i :| 0 <= i < |all| && all[i] == e;
      assert e.value == pieces[i];
    }
  }

  /** Only empty pieces are dropped: a "0" folder is kept, with its key. */
  lemma ZeroFolderKept(text: string, k: nat)
    requires k < |Php.Explode('/', text)| && Php.Explode('/', text)[k] == "0"
    ensures Php.Entry(k, "0") in PathArray(Php.PathText(text))
  {
    var all := Php.Enumerate(Php.Explode('/', text), 0);
    assert all[k] == Php.Entry(k, "0");
  }

  /** The string getPathString trims: an array joined with '/', a string as it is. */
  function Joined(path: Php.PathArg): string
  {
    match path
    case PathList(items) => Php.Implode("/", items)
    case PathText(text) => text
  }

  /** getPathString: the joined path trimmed of whitespace and '/'. */
  function PathString(path: Php.PathArg): (r: string)
    ensures |r| > 0 ==> r[0] !in PathTrimChars && r[|r| - 1] !in PathTrimChars
  {
    Php.TrimEnds(Joined(path), PathTrimChars);
    Php.Trim(Joined(path), PathTrimChars)
  }

  /** `r` sits in `s` at position i. */
  predicate InfixAt(r: string, s: string, i: nat)
  {
    i + |r| <= |s| && s[i..i + |r|] == r
  }

  /** `r` occurs in `s` as one contiguous piece. */
  ghost predicate IsInfix(r: string, s: string)
  {
    exists i: nat :: InfixAt(r, s, i)
  }

  /** getPathString only cuts at the two ends of the joined path. */
  lemma PathStringInfix(path: Php.PathArg)
    ensures IsInfix(PathString(path), Joined(path))
  {
    var s := Joined(path);
    var left := Php.TrimLeft(s, PathTrimChars);
    var r := Php.Trim(s, PathTrimChars);
    var i := |s| - |left|;
    assert left == s[i..];
    assert r == left[..|r|];
    assert s[i..][..|r|] == s[i..i + |r|];
    assert InfixAt(r, s, i);
  }

  /** No two '/' in a row. */
  predicate NoDoubleSlash(s: string)
  {
    forall i :: 0 <= i < |s| - 1 ==> !(s[i] == '/' && s[i + 1] == '/')
  }

  /** A piece of a string without "//" has none either. */
  lemma InfixNoDoubleSlash(r: string, s: string)
    requires IsInfix(r, s) && NoDoubleSlash(s)
    ensures NoDoubleSlash(r)
  {
    var i: nat :| InfixAt(r, s, i);
    forall j | 0 <= j < |r| - 1
      ensures !(r[j] == '/' && r[j + 1] == '/')
    {
      assert r[j] == s[i + j] && r[j + 1] == s[i + j + 1];
    }
  }

  /** Joining non-empty names without '/' puts exactly one '/' between them. */
  lemma {:induction false} JoinNoDoubleSlash(parts: seq<string>)
    requires forall i :: 0 <= i < |parts| ==> parts[i] != "" && '/' !in parts[i]
    ensures NoDoubleSlash(Php.Implode("/", parts))
    decreases |parts|
  {
    if |parts| > 1 {
      var init := parts[..|parts| - 1];
      var last := parts[|parts| - 1];
      JoinNoDoubleSlash(init);
      var head := Php.Implode("/", init);
      Php.ImplodeEndsWithLast("/", init);
      assert head[|head| - 1] == init[|init| - 1][|init[|init| - 1]| - 1];
      assert head[|head| - 1] in init[|init| - 1];
      var s := head + "/" + last;
      assert Php.Implode("/", parts) == s;
      forall j | 0 <= j < |s| - 1
        ensures !(s[j] == '/' && s[j + 1] == '/')
      {
        if j < |head| - 1 {
          assert s[j] == head[j] && s[j + 1] == head[j + 1];
        } else if j == |head| - 1 {
          assert s[j] == head[|head| - 1];
        } else {
          assert s[j + 1] == last[j - |head|];
          assert s[j + 1] in last;
        }
      }
    }
  }

  /** getPathString(getPathArray(s)) never holds "//". */
  lemma NormalisedNoDoubleSlash(text: string)
    ensures NoDoubleSlash(PathString(Php.PathList(Php.Values(PathArray(Php.PathText(text))))))
  {
    var entries := PathArray(Php.PathText(text));
    var parts := Php.Values(entries);
    PathArrayClean(text);
    assert forall i :: 0 <= i < |parts| ==> parts[i] == entries[i].value && entries[i] in entries;
    JoinNoDoubleSlash(parts);
    PathStringInfix(Php.PathList(parts));
    InfixNoDoubleSlash(PathString(Php.PathList(parts)), Php.Implode("/", parts));
  }

  /** The constructor's contentUrl: a '/' is appended unless the URL already ends with one. */
  function WithTrailingSlash(url: string): (r: string)
  {
    if |url| > 0 && url[|url| - 1] == '/' then url else url + "/"
  }

  /** The normalised URL ends with '/', keeps a URL that already does, and normalising twice is once. */
  lemma TrailingSlashProperties(url: string)
    ensures var r := WithTrailingSlash(url); |r| > 0 && r[|r| - 1] == '/'
    ensures Php.EndsWith(url, "/") ==> WithTrailingSlash(url) == url
    ensures !Php.EndsWith(url, "/") ==> WithTrailingSlash(url) == url + "/"
    ensures WithTrailingSlash(WithTrailingSlash(url)) == WithTrailingSlash(url)
  {
    if |url| > 0 && url[|url| - 1] == '/' {
      assert url[|url| - 1..] == "/";
    }
  }

  /** A remote node client: the account's content URL, normalised once on construction. */
  class Node {
    var contentUrl: string

    constructor (accountContentUrl: string)
      ensures contentUrl == WithTrailingSlash(accountContentUrl)
    {
      contentUrl := accountContentUrl;
      new;
      if !(|contentUrl| > 0 && contentUrl[|contentUrl| - 1] == '/') {
        contentUrl := contentUrl + "/";
      }
    }
  }
}
