/** What the singly linked list menu does to the sequence of values the list holds:
    inserting appends, deleting removes the first occurrence of the key. */
module ListSpec {

  /** s with its first occurrence of key taken out; s itself when key does not occur. */
  function RemoveFirst(s: seq<int>, key: int): seq<int>
  {
    if s == [] then []
    else if s[0] == key then s[1..]
    else [s[0]] + RemoveFirst(s[1..], key)
  }

  /** Deleting a key the list does not hold leaves it as it was. */
  lemma {:induction false} RemoveFirstAbsent(s: seq<int>, key: int)
    requires key !in s
    ensures RemoveFirst(s, key) == s
  {
    if s != [] {
      assert key !in s[1..] by {
        forall i | 0 <= i < |s[1..]|
          ensures s[1..][i] != key
        {
          assert s[1..][i] == s[i + 1];
        }
      }
      RemoveFirstAbsent(s[1..], key);
    }
  }

  /** When position i holds the first occurrence of key, deleting removes exactly that
      position and keeps everything before and after it in order. */
  lemma {:induction false} RemoveFirstAt(s: seq<int>, key: int, i: nat)
    requires i < |s| && s[i] == key
    requires forall j :: 0 <= j < i ==> s[j] != key
    ensures RemoveFirst(s, key) == s[..i] + s[i + 1..]
  {
    if i > 0 {
      RemoveFirstAt(s[1..], key, i - 1);
      assert s[1..][..i - 1] == s[1..i];
      assert s[1..][i..] == s[i + 1..];
      assert s[..i] == [s[0]] + s[1..i];
    }
  }

  /** Deleting removes one copy of key when the list holds it and nothing otherwise:
      the values kept are the old values less that one copy. */
  lemma {:induction false} RemoveFirstCount(s: seq<int>, key: int)
    ensures key in s ==> multiset(RemoveFirst(s, key)) == multiset(s) - multiset{key}
    ensures key in s ==> |RemoveFirst(s, key)| == |s| - 1
    ensures key !in s ==> RemoveFirst(s, key) == s
  {
    if key in s {
      var i := FirstIndex(s, key);
      RemoveFirstAt(s, key, i);
      var a, b := s[..i], s[i + 1..];
      assert s == a + [key] + b;
      assert multiset(s) == multiset(a) + multiset{key} + multiset(b);
      assert multiset(a + b) == multiset(a) + multiset(b);
    } else {
      RemoveFirstAbsent(s, key);
    }
  }

  /** The position of the first occurrence of key in s. */
  function FirstIndex(s: seq<int>, key: int): (i: nat)
    requires key in s
    ensures i < |s| && s[i] == key
    ensures forall j :: 0 <= j < i ==> s[j] != key
  {
    if s[0] == key then 0 else 1 + FirstIndex(s[1..], key)
  }

  /** Inserting a value the list does not hold and then deleting it gives back the list. */
  lemma InsertThenDelete(s: seq<int>, x: int)
    requires x !in s
    ensures RemoveFirst(s + [x], x) == s
  {
    RemoveFirstAt(s + [x], x, |s|);
    assert (s + [x])[..|s|] == s;
  }

  /** Inserting after the list already holds the key does not change which copy a later
      delete removes: the earliest one goes, and the new value stays at the end. */
  lemma DeleteAfterInsert(s: seq<int>, key: int, x: int)
    requires key in s
    ensures RemoveFirst(s + [x], key) == RemoveFirst(s, key) + [x]
  {
    var i := FirstIndex(s, key);
    RemoveFirstAt(s, key, i);
    RemoveFirstAt(s + [x], key, i);
    assert (s + [x])[..i] == s[..i];
    assert (s + [x])[i + 1..] == s[i + 1..] + [x];
  }
}
