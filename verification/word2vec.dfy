/**
 * `Word2Vec<D>`: the store mapping each word to its vector, with the text
 * loader, lookup, per-word cosine and subset extraction.
 *
 * File access is replaced by its outcome: a file is `None` when it cannot be
 * opened, otherwise the sequence of its lines, each `None` when reading that
 * line failed (such lines are dropped by the source's `flatten()`). Lines of
 * the model text are given already split on whitespace.
 */
module Word2Vecs {
  import opened Wrappers
  import opened WordVecs

  /** The store: D is `dim`, the map is `word_vecs`. */
  datatype Word2Vec = Word2Vec(dim: nat, wordVecs: map<string, WordVec>)

  /** Every record of the store has the store's dimension. */
  predicate Valid(model: Word2Vec)
  {
    forall w | w in model.wordVecs :: HasDim(model.wordVecs[w], model.dim)
  }

  /** `from_word_vecs`: the map's value type `WordVec<D>` fixes every record's dimension. */
  function FromWordVecs(dim: nat, wordVecs: map<string, WordVec>): (model: Word2Vec)
    requires forall w | w in wordVecs :: HasDim(wordVecs[w], dim)
    ensures Valid(model) && model.wordVecs == wordVecs && model.dim == dim
  {
    Word2Vec(dim, wordVecs)
  }

  /** `get_vec` (the `Word2VecTrait` lookup): absent words give `None`, not an error. */
  function GetVec(model: Word2Vec, word: string): (r: Option<WordVec>)
    ensures r.Some? <==> word in model.wordVecs
    ensures r.Some? ==> r.value == model.wordVecs[word]
  {
    if word in model.wordVecs then Some(model.wordVecs[word]) else None
  }

  /** A record found in a valid store converts to a D-array: `get_vec().unwrap()` cannot panic. */
  lemma LookupHasDim(model: Word2Vec, word: string)
    requires Valid(model) && GetVec(model, word).Some?
    ensures AsArray(GetVec(model, word).value, model.dim).Some?
  {
  }

  // ---------------------------------------------------------------------------
  // Loading from text.

  /** `flat_map(|s| s.parse::<f32>())`: the values of the tokens that parse, in order; the others are dropped. */
  function ParsedValues(tokens: seq<string>, parse: string -> Option<real>): (vs: seq<real>)
    ensures |vs| <= |tokens|
  {
    if |tokens| == 0 then []
    else
      var rest := ParsedValues(tokens[1..], parse);
      match parse(tokens[0])
      case Some(v) => [v] + rest
      case None => rest
  }

  lemma {:induction false} ParsedValuesAppend(a: seq<string>, b: seq<string>, parse: string -> Option<real>)
    ensures ParsedValues(a + b, parse) == ParsedValues(a, parse) + ParsedValues(b, parse)
  {
    if |a| > 0 {
      assert (a + b)[1..] == a[1..] + b;
      ParsedValuesAppend(a[1..], b, parse);
    } else {
      assert a + b == b;
    }
  }

  /**
   * A token that does not parse is dropped, not fatal: the values are those
   * of the line without it.
   */
  lemma UnparsedTokenDropped(a: seq<string>, t: string, b: seq<string>, parse: string -> Option<real>)
    requires parse(t).None?
    ensures ParsedValues(a + [t] + b, parse) == ParsedValues(a + b, parse)
  {
    ParsedValuesAppend(a + [t], b, parse);
    ParsedValuesAppend(a, [t], parse);
    ParsedValuesAppend(a, b, parse);
    assert [t][1..] == [];
  }

  /** When every token parses, the values are the parsed tokens, one for one. */
  lemma {:induction false} AllParsed(tokens: seq<string>, parse: string -> Option<real>)
    requires forall k :: 0 <= k < |tokens| ==> parse(tokens[k]).Some?
    ensures |ParsedValues(tokens, parse)| == |tokens|
    ensures forall k :: 0 <= k < |tokens| ==> ParsedValues(tokens, parse)[k] == parse(tokens[k]).value
  {
    if |tokens| > 0 {
      AllParsed(tokens[1..], parse);
    }
  }

  /** A readable, non-empty line whose first token is `word` and whose other tokens yield exactly `dim` values. */
  predicate Accepts(line: Option<seq<string>>, dim: nat, parse: string -> Option<real>, word: string)
  {
    && line.Some?
    && |line.value| > 0
    && line.value[0] == word
    && |ParsedValues(line.value[1..], parse)| == dim
  }

  /** The record an accepted line yields. */
  function LineVector(line: Option<seq<string>>, parse: string -> Option<real>): WordVec
    requires line.Some? && |line.value| > 0
  {
    WordVec(ParsedValues(line.value[1..], parse))
  }

  /**
   * What the loader has built after reading lines 1 .. n-1: a word is present
   * exactly when one of those lines is accepted for it, and its record comes
   * from the last such line.
   */
  ghost predicate LoadedPrefix(wordVecs: map<string, WordVec>, lines: seq<Option<seq<string>>>, n: nat,
                               dim: nat, parse: string -> Option<real>)
    requires n <= |lines|
  {
    && (forall w | w in wordVecs :: HasDim(wordVecs[w], dim))
    && (forall w :: w in wordVecs <==> exists j :: 1 <= j < n && Accepts(lines[j], dim, parse, w))
    && (forall w | w in wordVecs :: exists j ::
          LastAccepted(lines, n, j, dim, parse, w) && wordVecs[w] == LineVector(lines[j], parse))
  }

  /** Among lines 1 .. n-1, line j is the last one accepted for `w`. */
  ghost predicate LastAccepted(lines: seq<Option<seq<string>>>, n: nat, j: int, dim: nat,
                               parse: string -> Option<real>, w: string)
    requires n <= |lines|
  {
    && 1 <= j < n
    && Accepts(lines[j], dim, parse, w)
    && forall k :: j < k < n ==> !Accepts(lines[k], dim, parse, w)
  }

  /** A line is accepted for at most one word: its first token. */
  lemma AcceptsOnlyFirst(line: Option<seq<string>>, dim: nat, parse: string -> Option<real>, w: string)
    requires Accepts(line, dim, parse, w)
    ensures w == line.value[0]
  {
  }

  /** The update the loader makes for line i: an accepted line (re)binds its word, any other line changes nothing. */
  ghost predicate LineUpdate(before: map<string, WordVec>, after: map<string, WordVec>, line: Option<seq<string>>,
                             dim: nat, parse: string -> Option<real>)
  {
    if line.Some? && |line.value| > 0 && Accepts(line, dim, parse, line.value[0])
    then after == before[line.value[0] := LineVector(line, parse)]
    else after == before
  }

  lemma LoadStepKeys(before: map<string, WordVec>, after: map<string, WordVec>, lines: seq<Option<seq<string>>>,
                     i: nat, dim: nat, parse: string -> Option<real>)
    requires 1 <= i < |lines|
    requires forall w :: w in before <==> exists j :: 1 <= j < i && Accepts(lines[j], dim, parse, w)
    requires LineUpdate(before, after, lines[i], dim, parse)
    ensures forall w :: w in after <==> exists j :: 1 <= j < i + 1 && Accepts(lines[j], dim, parse, w)
  {
    forall w
      ensures w in after <==> exists j :: 1 <= j < i + 1 && Accepts(lines[j], dim, parse, w)
    {
      if Accepts(lines[i], dim, parse, w) {
        AcceptsOnlyFirst(lines[i], dim, parse, w);
      }
      if exists j :: 1 <= j < i + 1 && Accepts(lines[j], dim, parse, w) {
        var j :| 1 <= j < i + 1 && Accepts(lines[j], dim, parse, w);
        if j < i {
          assert w in before;
        }
      }
    }
  }

  lemma LoadStepLast(before: map<string, WordVec>, after: map<string, WordVec>, lines: seq<Option<seq<string>>>,
                     i: nat, dim: nat, parse: string -> Option<real>)
    requires 1 <= i < |lines|
    requires forall w | w in before :: exists j ::
               LastAccepted(lines, i, j, dim, parse, w) && before[w] == LineVector(lines[j], parse)
    requires LineUpdate(before, after, lines[i], dim, parse)
    ensures forall w | w in after :: exists j ::
              LastAccepted(lines, i + 1, j, dim, parse, w) && after[w] == LineVector(lines[j], parse)
  {
    var line := lines[i];
    var accepted := line.Some? && |line.value| > 0 && Accepts(line, dim, parse, line.value[0]);
    forall w | w in after
      ensures exists j :: LastAccepted(lines, i + 1, j, dim, parse, w) && after[w] == LineVector(lines[j], parse)
    {
      if accepted && w == line.value[0] {
        assert LastAccepted(lines, i + 1, i, dim, parse, w);
      } else {
        assert w in before && after[w] == before[w];
        var j :| LastAccepted(lines, i, j, dim, parse, w) && before[w] == LineVector(lines[j], parse);
        if Accepts(lines[i], dim, parse, w) {
          AcceptsOnlyFirst(lines[i], dim, parse, w);
        }
        assert LastAccepted(lines, i + 1, j, dim, parse, w);
      }
    }
  }

  /** Reading line i keeps `LoadedPrefix`. */
  lemma LoadStep(before: map<string, WordVec>, after: map<string, WordVec>, lines: seq<Option<seq<string>>>,
                 i: nat, dim: nat, parse: string -> Option<real>)
    requires 1 <= i < |lines|
    requires LoadedPrefix(before, lines, i, dim, parse)
    requires LineUpdate(before, after, lines[i], dim, parse)
    ensures LoadedPrefix(after, lines, i + 1, dim, parse)
  {
    LoadStepKeys(before, after, lines, i, dim, parse);
    LoadStepLast(before, after, lines, i, dim, parse);
  }

  /**
   * `load_from_txt`. `None` only when the file cannot be opened. Otherwise line 0
   * (the header) is skipped, and a word is in the store exactly when some later
   * line is accepted for it; its record comes from the LAST such line, because a
   * later `insert` of the same word overwrites the earlier one.
   */
  method LoadFromTxt(file: Option<seq<Option<seq<string>>>>, dim: nat, parse: string -> Option<real>)
    returns (r: Option<Word2Vec>)
    ensures r.None? <==> file.None?
    ensures r.Some? ==> r.value.dim == dim && Valid(r.value)
    ensures r.Some? ==> forall w ::
              w in r.value.wordVecs <==> exists j :: 1 <= j < |file.value| && Accepts(file.value[j], dim, parse, w)
    ensures r.Some? ==> forall w | w in r.value.wordVecs :: exists j ::
              && LastAccepted(file.value, |file.value|, j, dim, parse, w)
              && r.value.wordVecs[w] == LineVector(file.value[j], parse)
  {
    if file.None? {
      return None;
    }
    var lines := file.value;
    var wordVecs: map<string, WordVec> := map[];
    if |lines| == 0 {
      return Some(Word2Vec(dim, wordVecs));
    }
    var i := 1;
    while i < |lines|
      invariant 1 <= i <= |lines|
      invariant LoadedPrefix(wordVecs, lines, i, dim, parse)
    {
      ghost var before := wordVecs;
      var line := lines[i];
      if line.Some? && |line.value| > 0 {
        var word := line.value[0];
        var vec := ParsedValues(line.value[1..], parse);
        if |vec| == dim {
          wordVecs := wordVecs[word := New(dim, vec)];
        }
      }
      LoadStep(before, wordVecs, lines, i, dim, parse);
      i := i + 1;
    }
    r := Some(Word2Vec(dim, wordVecs));
  }

  // ---------------------------------------------------------------------------
  // Queries.

  /** `Word2Vec::cosine`: `None` when either word is missing, else the records' similarity. */
  method Cosine(model: Word2Vec, word1: string, word2: string) returns (r: Option<Similarity>)
    ensures r.None? <==> word1 !in model.wordVecs || word2 !in model.wordVecs
    ensures r.Some? ==> r.value == CosineOf(model.wordVecs[word1], model.wordVecs[word2])
  {
    var vec1 := GetVec(model, word1);
    if vec1.None? {
      return None;
    }
    var vec2 := GetVec(model, word2);
    if vec2.None? {
      return None;
    }
    var s := WordVecs.Cosine(vec1.value, vec2.value);
    r := Some(s);
  }

  /**
   * `get_subset`: a new store holding exactly the listed words that the store
   * knows, each with the store's record. Unknown and repeated entries add nothing.
   */
  method GetSubset(model: Word2Vec, words: seq<string>) returns (subset: Word2Vec)
    ensures subset.dim == model.dim && (Valid(model) ==> Valid(subset))
    ensures forall w :: w in subset.wordVecs <==> w in words && w in model.wordVecs
    ensures forall w | w in subset.wordVecs :: subset.wordVecs[w] == model.wordVecs[w]
  {
    var wordVecs: map<string, WordVec> := map[];
    var i := 0;
    while i < |words|
      invariant 0 <= i <= |words|
      invariant forall w :: w in wordVecs <==> w in words[..i] && w in model.wordVecs
      invariant forall w | w in wordVecs :: wordVecs[w] == model.wordVecs[w]
    {
      var word := words[i];
      var vec := GetVec(model, word);
      if vec.Some? {
        wordVecs := wordVecs[word := vec.value];
      }
      assert words[..i + 1] == words[..i] + [word];
      i := i + 1;
    }
    assert words[..i] == words;
    subset := Word2Vec(model.dim, wordVecs);
  }

  /** The only error `get_subset_from_wordlist` reports here: the word list cannot be opened. */
  datatype LoadError = CannotOpen

  /** The readable lines of a file, in order (`lines.flatten()`). */
  function Readable(lines: seq<Option<string>>): (words: seq<string>)
    ensures |words| <= |lines|
    ensures forall w :: w in words <==> Some(w) in lines
  {
    if |lines| == 0 then []
    else
      assert lines == [lines[0]] + lines[1..];
      (if lines[0].Some? then [lines[0].value] else []) + Readable(lines[1..])
  }

  /** `flatten` keeps the order of the lines: the readable lines of two parts, one after the other. */
  lemma {:induction false} ReadableAppend(a: seq<Option<string>>, b: seq<Option<string>>)
    ensures Readable(a + b) == Readable(a) + Readable(b)
    decreases |a|
  {
    if |a| > 0 {
      assert (a + b)[1..] == a[1..] + b;
      ReadableAppend(a[1..], b);
    } else {
      assert a + b == b;
    }
  }

  /**
   * `get_subset_from_wordlist`: each readable line, taken whole, is a word to
   * keep; fails only when the list cannot be opened.
   */
  method GetSubsetFromWordlist(model: Word2Vec, file: Option<seq<Option<string>>>)
    returns (r: Result<Word2Vec, LoadError>)
    ensures r.Failure? <==> file.None?
    ensures r.Success? ==> r.value.dim == model.dim
    ensures r.Success? ==> forall w ::
              w in r.value.wordVecs <==> Some(w) in file.value && w in model.wordVecs
    ensures r.Success? ==> forall w | w in r.value.wordVecs :: r.value.wordVecs[w] == model.wordVecs[w]
  {
    if file.None? {
      return Failure(CannotOpen);
    }
    var subset := GetSubset(model, Readable(file.value));
    r := Success(subset);
  }
}
