/** A document collection keyed by a unique string `_id` (or another unique
    string key): lookup by key, and what replace-by-key, delete-by-key and
    insert do to every lookup. */
module Keyed {
  import opened Common
  import opened Collections

  /** The error the store raises when an insert reuses an `_id`. */
  const DuplicateKey := "E11000 duplicate key error"

  /** The filter `x => key(x) == k`. */
  function KeyIs<T>(key: T -> string, k: string): T -> bool {
    (x: T) => key(x) == k
  }

  /** No two documents share a key. */
  ghost predicate UniqueKeys<T>(s: seq<T>, key: T -> string) {
    forall i, j :: 0 <= i < j < |s| ==> key(s[i]) != key(s[j])
  }

  /** `Find(x => key(x) == k).FirstOrDefault()`. */
  function Lookup<T>(s: seq<T>, key: T -> string, k: string): (r: Option<T>)
    ensures r.None? <==> forall j :: 0 <= j < |s| ==> key(s[j]) != k
    ensures r.Some? ==> r.value in s && key(r.value) == k
  {
    First(s, KeyIs(key, k))
  }

  /** With unique keys, every stored document is what a lookup of its key finds. */
  lemma LookupStored<T>(s: seq<T>, key: T -> string, i: nat)
    requires UniqueKeys(s, key) && i < |s|
    ensures Lookup(s, key, key(s[i])) == Some(s[i])
  {
    var k := FirstIndex(s, KeyIs(key, key(s[i])));
    assert k.Some? && k.value <= i;
  }

  /** Replacing the document with key `k` by one with the same key changes the
      lookup of `k` and no other lookup, and keeps keys unique. */
  lemma ReplaceEffect<T>(s: seq<T>, key: T -> string, k: string, x: T)
    requires UniqueKeys(s, key) && key(x) == k
    ensures UniqueKeys(ReplaceFirst(s, KeyIs(key, k), x), key)
    ensures Lookup(ReplaceFirst(s, KeyIs(key, k), x), key, k) ==
      if Lookup(s, key, k).Some? then Some(x) else None
    ensures forall other :: other != k ==>
      Lookup(ReplaceFirst(s, KeyIs(key, k), x), key, other) == Lookup(s, key, other)
  {
    var r := ReplaceFirst(s, KeyIs(key, k), x);
    match FirstIndex(s, KeyIs(key, k))
    case None =>
    case Some(i) =>
      assert forall j :: 0 <= j < |r| ==> key(r[j]) == key(s[j]);
      LookupStored(r, key, i);
      forall other | other != k
        ensures Lookup(r, key, other) == Lookup(s, key, other)
      {
        var fs := FirstIndex(s, KeyIs(key, other));
        if fs.Some? {
          assert fs.value != i;
          LookupStored(s, key, fs.value);
          LookupStored(r, key, fs.value);
        }
      }
  }

  lemma RemoveAtIndex<T>(s: seq<T>, key: T -> string, i: nat)
    requires UniqueKeys(s, key) && i < |s|
    ensures var r := s[..i] + s[i + 1..];
      UniqueKeys(r, key) &&
      (forall j :: 0 <= j < |r| ==> r[j] == if j < i then s[j] else s[j + 1]) &&
      (forall j :: 0 <= j < |r| ==> key(r[j]) != key(s[i]))
  {
  }

  /** Deleting by key removes exactly that document: its lookup fails
      afterwards, every other lookup is unchanged, and keys stay unique. */
  lemma RemoveEffect<T>(s: seq<T>, key: T -> string, k: string)
    requires UniqueKeys(s, key)
    ensures UniqueKeys(RemoveFirst(s, KeyIs(key, k)), key)
    ensures Lookup(RemoveFirst(s, KeyIs(key, k)), key, k).None?
    ensures forall other :: other != k ==>
      Lookup(RemoveFirst(s, KeyIs(key, k)), key, other) == Lookup(s, key, other)
    ensures |RemoveFirst(s, KeyIs(key, k))| == |s| - (if Lookup(s, key, k).Some? then 1 else 0)
  {
    var r := RemoveFirst(s, KeyIs(key, k));
    match FirstIndex(s, KeyIs(key, k))
    case None =>
    case Some(i) =>
      RemoveAtIndex(s, key, i);
      forall other | other != k
        ensures Lookup(r, key, other) == Lookup(s, key, other)
      {
        var fs := FirstIndex(s, KeyIs(key, other));
        if fs.Some? {
          LookupStored(s, key, fs.value);
          var j := if fs.value < i then fs.value else fs.value - 1;
          assert r[j] == s[fs.value];
          LookupStored(r, key, j);
        }
      }
  }

  /** Inserting a document under a fresh key keeps keys unique, makes it
      findable and leaves every other lookup unchanged. */
  lemma AppendEffect<T>(s: seq<T>, key: T -> string, x: T)
    requires UniqueKeys(s, key) && Lookup(s, key, key(x)).None?
    ensures UniqueKeys(s + [x], key)
    ensures Lookup(s + [x], key, key(x)) == Some(x)
    ensures forall other :: other != key(x) ==> Lookup(s + [x], key, other) == Lookup(s, key, other)
  {
    var r := s + [x];
    LookupStored(r, key, |s|);
    forall other | other != key(x)
      ensures Lookup(r, key, other) == Lookup(s, key, other)
    {
      var fs := FirstIndex(s, KeyIs(key, other));
      if fs.Some? {
        LookupStored(s, key, fs.value);
        LookupStored(r, key, fs.value);
      }
    }
  }

  /** A document appended under a key no earlier document has is what a
      lookup of that key finds. */
  lemma LookupAppendFresh<T>(s: seq<T>, key: T -> string, x: T)
    requires Lookup(s, key, key(x)).None?
    ensures Lookup(s + [x], key, key(x)) == Some(x)
    ensures forall other :: other != key(x) ==> Lookup(s + [x], key, other) == Lookup(s, key, other)
  {
    var r := s + [x];
    assert forall j :: 0 <= j < |s| ==> r[j] == s[j];
    assert r[|s|] == x;
    var fi := FirstIndex(r, KeyIs(key, key(x)));
    assert fi.Some? && fi.value == |s|;
    forall other | other != key(x)
      ensures Lookup(r, key, other) == Lookup(s, key, other)
    {
      var fr := FirstIndex(r, KeyIs(key, other));
      var fs := FirstIndex(s, KeyIs(key, other));
      if fs.Some? {
        assert fr.Some? && fr.value <= fs.value;
      } else {
        assert fr.None?;
      }
    }
  }

  /** Replacing the document with key `k` by one that agrees with it on a
      second key `key2` changes a `key2` lookup only where that lookup found
      the replaced document. */
  lemma ReplaceOtherKey<T>(s: seq<T>, key: T -> string, k: string, x: T, key2: T -> string, name: string)
    requires UniqueKeys(s, key) && key(x) == k
    requires Lookup(s, key, k).Some? && key2(x) == key2(Lookup(s, key, k).value)
    ensures Lookup(ReplaceFirst(s, KeyIs(key, k), x), key2, name) ==
      if Lookup(s, key2, name).Some? && key(Lookup(s, key2, name).value) == k then Some(x)
      else Lookup(s, key2, name)
  {
    var i := FirstIndex(s, KeyIs(key, k)).value;
    var r := ReplaceFirst(s, KeyIs(key, k), x);
    assert r == s[i := x];
    assert forall j :: 0 <= j < |s| ==> key2(r[j]) == key2(s[j]);
    var fr := FirstIndex(r, KeyIs(key2, name));
    var fs := FirstIndex(s, KeyIs(key2, name));
    if fs.Some? {
      assert fr.Some? && fr.value <= fs.value;
      assert fr.value == fs.value;
      if fs.value != i {
        assert key(s[fs.value]) != k;
      }
    } else {
      assert fr.None?;
    }
  }
}
