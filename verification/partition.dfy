/**
 * `Word2Vec::partition`: shards the store into folders of binary files.
 *
 * Directory creation and file writes are not performed; the method returns
 * the sequence of file-system actions the source performs, in order. The
 * binary encoding of a shard is not modelled: a write carries the shard map
 * itself.
 *
 * With N words, `perFile = N / n` and `perFolder = N / f` (truncating), the
 * loop over the sorted words opens a folder named `words[i]` whenever
 * `i % perFolder == 0`, adds `words[i]` to the pending shard, and flushes the
 * pending shard to a file named `words[i]` in the current folder whenever
 * `i % perFile == 0` or `i == N - 1`.
 */
module Partitions {
  import opened Wrappers
  import opened WordVecs
  import opened Word2Vecs
  import opened Lexicographic

  /** The file-system effects of `partition`, relative to `<dist>/word2vec`. */
  datatype Action =
    | CreateRoot                                                            // create_dir_all(<dist>/word2vec)
    | CreateFolder(folder: string)                                          // create_dir_all(<dist>/word2vec/<folder>)
    | WriteShard(folder: string, file: string, shard: map<string, WordVec>) // write <folder>/<file>.bin

  /**
   * The arguments for which `partition` does not panic: `N / n` needs `n > 0`,
   * `N / f` needs `f > 0`, and for N > 0 the loop takes `i % (N / f)` and
   * `i % (N / n)`, which need both quotients to be positive.
   */
  predicate Defined(count: nat, n: nat, f: nat)
  {
    n > 0 && f > 0 && (count > 0 ==> count / n > 0 && count / f > 0)
  }

  // ---------------------------------------------------------------------------
  // Integer division facts.

  lemma MulAtLeast(d: int, p: int)
    requires d >= 1 && p > 0
    ensures d * p >= p
  {
  }

  lemma Distribute(x: int, y: int, p: int)
    ensures x * p - y * p == (x - y) * p
  {
  }

  /** Quotient and remainder are determined by `a == q * p + r` with `0 <= r < p`. */
  lemma DivModUnique(a: int, p: int, q: int, r: int)
    requires p > 0 && 0 <= r < p && a == q * p + r
    ensures a / p == q && a % p == r
  {
    var q', r' := a / p, a % p;
    Distribute(q', q, p);
    if q' > q {
      MulAtLeast(q' - q, p);
    } else if q' < q {
      Distribute(q, q', p);
      MulAtLeast(q - q', p);
    }
  }

  /** Stepping back from a non-multiple of `p` keeps the quotient and lowers the remainder. */
  lemma ModPredecessor(i: int, p: int)
    requires p > 0 && i > 0 && i % p != 0
    ensures (i - 1) / p == i / p && (i - 1) % p == i % p - 1
  {
    DivModUnique(i - 1, p, i / p, i % p - 1);
  }

  // ---------------------------------------------------------------------------
  // The plan: the actions `partition` performs, defined index by index.

  /** Every listed word is a key of the store. */
  ghost predicate AllKnown(words: seq<string>, store: map<string, WordVec>)
  {
    forall j :: 0 <= j < |words| ==> words[j] in store
  }

  /**
   * The index of the first word of the shard flushed at index i: just after
   * the previous flush, which is the largest multiple of `perFile` below i
   * (nothing precedes the flush at 0).
   */
  function ShardStart(i: nat, perFile: nat): (lo: nat)
    requires perFile > 0
    ensures lo <= i
    ensures i > 0 ==> lo > 0
  {
    if i == 0 then 0 else (i - 1) / perFile * perFile + 1
  }

  /** The entries of `words[lo..hi]`, with their records. */
  function Shard(words: seq<string>, store: map<string, WordVec>, lo: nat, hi: nat): map<string, WordVec>
    requires lo <= hi <= |words|
  {
    map w | w in words[lo..hi] && w in store :: store[w]
  }

  /** The index at which the folder current at index i was opened: the last multiple of `perFolder` up to i. */
  function FolderStart(i: nat, perFolder: nat): (s: nat)
    requires perFolder > 0
    ensures s <= i
  {
    i - i % perFolder
  }

  /** What iteration i of the loop does. */
  function Step(words: seq<string>, store: map<string, WordVec>, perFile: nat, perFolder: nat, i: nat): seq<Action>
    requires i < |words| && perFile > 0 && perFolder > 0
  {
    (if i % perFolder == 0 then [CreateFolder(words[i])] else [])
    + (if i % perFile == 0 || i == |words| - 1
       then [WriteShard(words[FolderStart(i, perFolder)], words[i], Shard(words, store, ShardStart(i, perFile), i + 1))]
       else [])
  }

  /** What iterations 0 .. k-1 do. */
  function Steps(words: seq<string>, store: map<string, WordVec>, perFile: nat, perFolder: nat, k: nat): seq<Action>
    requires k <= |words| && perFile > 0 && perFolder > 0
  {
    if k == 0 then [] else Steps(words, store, perFile, perFolder, k - 1) + Step(words, store, perFile, perFolder, k - 1)
  }

  /** All actions of `partition` for the sorted word list `words`. */
  function Plan(words: seq<string>, store: map<string, WordVec>, n: nat, f: nat): seq<Action>
    requires Defined(|words|, n, f)
  {
    [CreateRoot] + (if |words| == 0 then [] else Steps(words, store, |words| / n, |words| / f, |words|))
  }

  /** Adding the word at index `hi` to the pending shard gives the shard up to `hi + 1`. */
  lemma ShardExtend(words: seq<string>, store: map<string, WordVec>, lo: nat, hi: nat)
    requires lo <= hi < |words|
    ensures Shard(words, store, lo, hi + 1) ==
              if words[hi] in store then Shard(words, store, lo, hi)[words[hi] := store[words[hi]]]
              else Shard(words, store, lo, hi)
  {
    assert words[lo..hi + 1] == words[lo..hi] + [words[hi]];
  }

  lemma ShardEmpty(words: seq<string>, store: map<string, WordVec>, lo: nat)
    requires lo <= |words|
    ensures Shard(words, store, lo, lo) == map[]
  {
    assert words[lo..lo] == [];
  }

  /** Where the pending shard starts at index i + 1, given what happened at index i. */
  lemma NextShardStart(i: nat, perFile: nat)
    requires perFile > 0
    ensures i % perFile == 0 ==> ShardStart(i + 1, perFile) == i + 1
    ensures i % perFile != 0 ==> ShardStart(i + 1, perFile) == ShardStart(i, perFile)
  {
    if i % perFile == 0 {
      DivModUnique(i, perFile, i / perFile, 0);
    } else {
      ModPredecessor(i, perFile);
    }
  }

  /** The folder current at index i is the one opened at the last multiple of `perFolder` up to i. */
  lemma NextFolder(i: nat, perFolder: nat)
    requires perFolder > 0 && i % perFolder != 0
    ensures i > 0 && FolderStart(i, perFolder) == FolderStart(i - 1, perFolder)
  {
    ModPredecessor(i, perFolder);
  }

  // ---------------------------------------------------------------------------
  // The loop.

  /** `partition(dist, n, f)`: returns the actions it performs, which are those of the plan for the sorted keys. */
  method Partition(model: Word2Vec, n: nat, f: nat) returns (actions: seq<Action>)
    requires Defined(|model.wordVecs|, n, f)
    ensures actions == Plan(SortedKeys(model.wordVecs.Keys), model.wordVecs, n, f)
  {
    var words := SortWords(model.wordVecs.Keys);
    actions := PartitionSorted(model, words, n, f);
  }

  /** The body of `partition` after `words.sort()`: the loop over the sorted words. */
  method PartitionSorted(model: Word2Vec, words: seq<string>, n: nat, f: nat) returns (actions: seq<Action>)
    requires Defined(|words|, n, f)
    ensures actions == Plan(words, model.wordVecs, n, f)
  {
    actions := [CreateRoot];
    var perFile := |words| / n;
    var perFolder := |words| / f;
    var current: map<string, WordVec> := map[];
    var currentFolder: string := "";  // `dist` itself until index 0 opens the first folder
    var i := 0;
    while i < |words|
      invariant 0 <= i <= |words|
      invariant |words| == 0 ==> actions == [CreateRoot]
      invariant |words| > 0 ==> actions == [CreateRoot] + Steps(words, model.wordVecs, perFile, perFolder, i)
      invariant i < |words| ==> current == Shard(words, model.wordVecs, ShardStart(i, perFile), i)
      invariant i == |words| ==> current == map[]
      invariant i > 0 ==> currentFolder == words[FolderStart(i - 1, perFolder)]
    {
      var emitted;
      emitted, current, currentFolder := Visit(model, words, perFile, perFolder, i, current, currentFolder);
      actions := actions + emitted;
      i := i + 1;
    }
  }

  /**
   * One iteration of the loop at index i: open a folder when i is a multiple
   * of `perFolder`, add the word's record to the pending shard, and flush the
   * shard when i is a multiple of `perFile` or the last index.
   */
  method Visit(model: Word2Vec, words: seq<string>, perFile: nat, perFolder: nat, i: nat,
               current: map<string, WordVec>, currentFolder: string)
    returns (emitted: seq<Action>, current': map<string, WordVec>, currentFolder': string)
    requires i < |words| && perFile > 0 && perFolder > 0
    requires current == Shard(words, model.wordVecs, ShardStart(i, perFile), i)
    requires i > 0 ==> currentFolder == words[FolderStart(i - 1, perFolder)]
    ensures emitted == Step(words, model.wordVecs, perFile, perFolder, i)
    ensures i + 1 < |words| ==> current' == Shard(words, model.wordVecs, ShardStart(i + 1, perFile), i + 1)
    ensures (i % perFile == 0 || i == |words| - 1) ==> current' == map[]
    ensures currentFolder' == words[FolderStart(i, perFolder)]
  {
    var word := words[i];
    emitted := [];
    currentFolder' := currentFolder;
    if i % perFolder == 0 {
      currentFolder' := word;
      emitted := [CreateFolder(currentFolder')];
    } else {
      NextFolder(i, perFolder);
    }
    current' := current;
    var vec := GetVec(model, word);
    if vec.Some? {
      current' := current'[word := vec.value];
    }
    ShardExtend(words, model.wordVecs, ShardStart(i, perFile), i);
    NextShardStart(i, perFile);
    if i % perFile == 0 || i == |words| - 1 {
      emitted := emitted + [WriteShard(currentFolder', word, current')];
      current' := map[];
      if i + 1 < |words| {
        ShardEmpty(words, model.wordVecs, i + 1);
      }
    }
  }
}
