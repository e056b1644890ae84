/**
 * The order `words.sort()` puts the store's keys in: Rust's `Ord` for `String`,
 * which compares the UTF-8 bytes lexicographically. On Unicode scalar values
 * that is the same as comparing code points lexicographically, which is what
 * `Below` does on Dafny strings.
 */
module Lexicographic {

  /** Strict lexicographic order: `a` is a proper prefix of `b`, or the first differing character of `a` is smaller. */
  predicate Below(a: string, b: string)
  {
    if |a| == 0 then |b| > 0
    else if |b| == 0 then false
    else if a[0] == b[0] then Below(a[1..], b[1..])
    else a[0] < b[0]
  }

  lemma {:induction false} BelowIrreflexive(a: string)
    ensures !Below(a, a)
  {
    if |a| > 0 {
      BelowIrreflexive(a[1..]);
    }
  }

  lemma {:induction false} BelowTransitive(a: string, b: string, c: string)
    requires Below(a, b) && Below(b, c)
    ensures Below(a, c)
  {
    if |a| > 0 && |b| > 0 && |c| > 0 && a[0] == b[0] && b[0] == c[0] {
      BelowTransitive(a[1..], b[1..], c[1..]);
    }
  }

  lemma {:induction false} BelowTotal(a: string, b: string)
    requires a != b
    ensures Below(a, b) || Below(b, a)
  {
    if |a| > 0 && |b| > 0 && a[0] == b[0] {
      assert a == [a[0]] + a[1..] && b == [b[0]] + b[1..];
      BelowTotal(a[1..], b[1..]);
    }
  }

  lemma BelowAsymmetric(a: string, b: string)
    requires Below(a, b)
    ensures !Below(b, a)
  {
    if Below(b, a) {
      BelowTransitive(a, b, a);
      BelowIrreflexive(a);
    }
  }

  /** Sorted ascending with no repeated element (the keys of a map are distinct). */
  ghost predicate StrictlySorted(s: seq<string>)
  {
    forall i, j :: 0 <= i < j < |s| ==> Below(s[i], s[j])
  }

  /** Inserts a new word at its place in a strictly sorted sequence. */
  function Insert(s: seq<string>, w: string): (r: seq<string>)
    requires StrictlySorted(s) && w !in s
    ensures StrictlySorted(r)
    ensures |r| == |s| + 1
    ensures forall x :: x in r <==> x in s || x == w
  {
    if |s| == 0 then [w]
    else if Below(w, s[0]) then
      assert forall j :: 0 < j < |s| ==> Below(w, s[j]) by {
        forall j | 0 < j < |s| ensures Below(w, s[j]) {
          BelowTransitive(w, s[0], s[j]);
        }
      }
      [w] + s
    else
      var rest := Insert(s[1..], w);
      assert Below(s[0], w) by {
        BelowTotal(s[0], w);
      }
      assert forall x :: x in rest ==> Below(s[0], x) by {
        forall x | x in rest ensures Below(s[0], x) {
          if x != w {
            var j :| 0 <= j < |s[1..]| && s[1..][j] == x;
            assert s[j + 1] == x;
          }
        }
      }
      [s[0]] + rest
  }

  /** The keys of a store in ascending order: the unique strictly sorted enumeration of the set. */
  ghost function SortedKeys(keys: set<string>): (ws: seq<string>)
    ensures StrictlySorted(ws)
    ensures |ws| == |keys|
    ensures forall w :: w in ws <==> w in keys
    decreases keys
  {
    if keys == {} then []
    else
      var w :| w in keys;
      Insert(SortedKeys(keys - {w}), w)
  }

  /** Two strictly sorted sequences with the same elements are equal: sorting is deterministic. */
  lemma {:induction false} SortedUnique(a: seq<string>, b: seq<string>)
    requires StrictlySorted(a) && StrictlySorted(b)
    requires forall w :: w in a <==> w in b
    ensures a == b
  {
    if |a| > 0 {
      assert a[0] in b;
    }
    if |b| > 0 {
      assert b[0] in a;
    }
    if |a| > 0 {
      assert a[0] == b[0] by {
        if a[0] != b[0] {
          assert b[0] in b && a[0] in a;
          var i :| 0 <= i < |a| && a[i] == b[0];
          var j :| 0 <= j < |b| && b[j] == a[0];
          assert Below(a[0], b[0]);
          assert Below(b[0], a[0]);
          BelowAsymmetric(a[0], b[0]);
        }
      }
      forall w
        ensures w in a[1..] <==> w in b[1..]
      {
        if w in a[1..] {
          var i :| 0 <= i < |a[1..]| && a[1..][i] == w;
          assert a[i + 1] == w && Below(a[0], w);
          BelowIrreflexive(w);
          assert w in b && w != b[0];
          var j :| 0 <= j < |b| && b[j] == w;
          assert b[1..][j - 1] == w;
        }
        if w in b[1..] {
          var j :| 0 <= j < |b[1..]| && b[1..][j] == w;
          assert b[j + 1] == w && Below(b[0], w);
          BelowIrreflexive(w);
          assert w in a && w != a[0];
          var i :| 0 <= i < |a| && a[i] == w;
          assert a[1..][i - 1] == w;
        }
      }
      SortedUnique(a[1..], b[1..]);
      assert a == [a[0]] + a[1..] && b == [b[0]] + b[1..];
    }
  }

  /** `self.word_vecs.keys().collect()` followed by `words.sort()`. */
  method SortWords(keys: set<string>) returns (words: seq<string>)
    ensures words == SortedKeys(keys)
  {
    words := [];
    var rest := keys;
    while rest != {}
      invariant StrictlySorted(words)
      invariant forall w :: w in words <==> w in keys && w !in rest
      invariant rest <= keys
      decreases rest
    {
      var w :| w in rest;
      words := Insert(words, w);
      rest := rest - {w};
    }
    SortedUnique(words, SortedKeys(keys));
  }
}
