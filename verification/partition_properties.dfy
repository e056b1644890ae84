/**
 * What the actions of `partition` amount to: every entry of the store lands
 * in exactly one shard with its own record, each shard is named after its
 * largest word, every write goes into the folder created most recently, and
 * the numbers of folders and files follow from the truncating divisions.
 */
module PartitionProperties {
  import opened Wrappers
  import opened WordVecs
  import opened Lexicographic
  import opened Partitions

  // ---------------------------------------------------------------------------
  // Reading a trace.

  /** Whether action `a` writes a shard that holds `w`. */
  predicate Holds(a: Action, w: string)
  {
    a.WriteShard? && w in a.shard
  }

  /** The number of shard files written by `actions` that hold `w`. */
  function ShardsHolding(actions: seq<Action>, w: string): nat
  {
    if |actions| == 0 then 0
    else ShardsHolding(actions[..|actions| - 1], w) + (if Holds(actions[|actions| - 1], w) then 1 else 0)
  }

  /** The number of folders `actions` create. */
  function FolderCount(actions: seq<Action>): nat
  {
    if |actions| == 0 then 0
    else FolderCount(actions[..|actions| - 1]) + (if actions[|actions| - 1].CreateFolder? then 1 else 0)
  }

  /** The number of shard files `actions` write. */
  function FileCount(actions: seq<Action>): nat
  {
    if |actions| == 0 then 0
    else FileCount(actions[..|actions| - 1]) + (if actions[|actions| - 1].WriteShard? then 1 else 0)
  }

  /** The folder created last in `actions`, if any: where the next write goes. */
  function LastFolder(actions: seq<Action>): Option<string>
  {
    if |actions| == 0 then None
    else if actions[|actions| - 1].CreateFolder? then Some(actions[|actions| - 1].folder)
    else LastFolder(actions[..|actions| - 1])
  }

  /** Every write goes into the folder created most recently before it. */
  ghost predicate WritesIntoCurrentFolder(actions: seq<Action>)
  {
    forall idx :: 0 <= idx < |actions| && actions[idx].WriteShard? ==>
      LastFolder(actions[..idx]) == Some(actions[idx].folder)
  }

  lemma {:induction false} CountsAppend(a: seq<Action>, b: seq<Action>, w: string)
    ensures ShardsHolding(a + b, w) == ShardsHolding(a, w) + ShardsHolding(b, w)
    ensures FolderCount(a + b) == FolderCount(a) + FolderCount(b)
    ensures FileCount(a + b) == FileCount(a) + FileCount(b)
  {
    if |b| == 0 {
      assert a + b == a;
    } else {
      assert (a + b)[..|a + b| - 1] == a + b[..|b| - 1];
      CountsAppend(a, b[..|b| - 1], w);
    }
  }

  lemma {:induction false} LastFolderAfterRoot(s: seq<Action>)
    ensures LastFolder([CreateRoot] + s) == LastFolder(s)
  {
    if |s| > 0 {
      assert ([CreateRoot] + s)[..|s|] == [CreateRoot] + s[..|s| - 1];
      LastFolderAfterRoot(s[..|s| - 1]);
    }
  }

  // ---------------------------------------------------------------------------
  // Facts about the sorted word list.

  /**
   * No word is listed twice. Stated one head at a time, so that the solver
   * unfolds it only as far as a proof asks.
   */
  ghost predicate Distinct(words: seq<string>)
  {
    |words| == 0 || (words[0] !in words[1..] && Distinct(words[1..]))
  }

  /** Two positions of a list of distinct words hold different words. */
  lemma {:induction false} DistinctAt(words: seq<string>, i: nat, j: nat)
    requires Distinct(words) && i < j < |words|
    ensures words[i] != words[j]
  {
    if i == 0 {
      assert words[1..][j - 1] == words[j];
    } else {
      assert words[1..][i - 1] == words[i] && words[1..][j - 1] == words[j];
      DistinctAt(words[1..], i - 1, j - 1);
    }
  }

  lemma {:induction false} SortedDistinct(words: seq<string>)
    requires StrictlySorted(words)
    ensures Distinct(words)
  {
    if |words| > 0 {
      var rest := words[1..];
      forall j | 0 <= j < |rest|
        ensures rest[j] != words[0]
      {
        assert rest[j] == words[j + 1];
        BelowIrreflexive(words[0]);
      }
      assert StrictlySorted(rest) by {
        forall i, j | 0 <= i < j < |rest|
          ensures Below(rest[i], rest[j])
        {
          assert rest[i] == words[i + 1] && rest[j] == words[j + 1];
        }
      }
      SortedDistinct(rest);
    }
  }

  /** Cutting a list of distinct words at `lo` splits its members into two disjoint parts. */
  lemma SplitMembers(words: seq<string>, lo: nat, hi: nat, w: string)
    requires Distinct(words) && lo <= hi <= |words|
    ensures w in words[..hi] <==> w in words[..lo] || w in words[lo..hi]
    ensures !(w in words[..lo] && w in words[lo..hi])
  {
    assert words[..hi] == words[..lo] + words[lo..hi];
    forall x, y | 0 <= x < lo && 0 <= y < hi - lo
      ensures words[..lo][x] != words[lo..hi][y]
    {
      assert words[..lo][x] == words[x] && words[lo..hi][y] == words[lo + y];
      DistinctAt(words, x, lo + y);
    }
  }

  // ---------------------------------------------------------------------------
  // Every entry in exactly one shard.

  /** How many of the sorted words iterations 0 .. k-1 have flushed to a file. */
  function Flushed(count: nat, perFile: nat, k: nat): nat
    requires perFile > 0 && k <= count
  {
    if k == count then k else ShardStart(k, perFile)
  }

  lemma CountsOne(a: Action, w: string)
    ensures ShardsHolding([a], w) == if Holds(a, w) then 1 else 0
    ensures FolderCount([a]) == if a.CreateFolder? then 1 else 0
    ensures FileCount([a]) == if a.WriteShard? then 1 else 0
  {
    assert [a][..0] == [];
  }

  /** Iteration i writes a shard holding `w` exactly when it flushes and `w` is a key in the flushed range. */
  lemma StepHolding(words: seq<string>, store: map<string, WordVec>, perFile: nat, perFolder: nat, i: nat, w: string)
    requires i < |words| && perFile > 0 && perFolder > 0
    ensures ShardsHolding(Step(words, store, perFile, perFolder, i), w) ==
              if (i % perFile == 0 || i == |words| - 1) && w in words[ShardStart(i, perFile)..i + 1] && w in store
              then 1 else 0
  {
    var write := WriteShard(words[FolderStart(i, perFolder)], words[i], Shard(words, store, ShardStart(i, perFile), i + 1));
    var created: seq<Action> := if i % perFolder == 0 then [CreateFolder(words[i])] else [];
    if i % perFolder == 0 {
      CountsOne(CreateFolder(words[i]), w);
    }
    if i % perFile == 0 || i == |words| - 1 {
      assert Step(words, store, perFile, perFolder, i) == created + [write];
      CountsAppend(created, [write], w);
      CountsOne(write, w);
    } else {
      assert Step(words, store, perFile, perFolder, i) == created;
    }
  }

  /** Iteration i opens a folder when i is a multiple of `perFolder`, and writes a file when it flushes. */
  lemma StepCounts(words: seq<string>, store: map<string, WordVec>, perFile: nat, perFolder: nat, i: nat)
    requires i < |words| && perFile > 0 && perFolder > 0
    ensures FolderCount(Step(words, store, perFile, perFolder, i)) == if i % perFolder == 0 then 1 else 0
    ensures FileCount(Step(words, store, perFile, perFolder, i)) == if i % perFile == 0 || i == |words| - 1 then 1 else 0
  {
    var write := WriteShard(words[FolderStart(i, perFolder)], words[i], Shard(words, store, ShardStart(i, perFile), i + 1));
    var created: seq<Action> := if i % perFolder == 0 then [CreateFolder(words[i])] else [];
    if i % perFolder == 0 {
      CountsOne(CreateFolder(words[i]), "");
    }
    if i % perFile == 0 || i == |words| - 1 {
      assert Step(words, store, perFile, perFolder, i) == created + [write];
      CountsAppend(created, [write], "");
      CountsOne(write, "");
    } else {
      assert Step(words, store, perFile, perFolder, i) == created;
    }
  }

  /** Iteration i extends the flushed words by the shard it writes, if it writes one. */
  lemma StepCover(before: seq<Action>, words: seq<string>, store: map<string, WordVec>, perFile: nat, perFolder: nat,
                  i: nat, w: string)
    requires Distinct(words) && perFile > 0 && perFolder > 0 && i < |words|
    requires ShardsHolding(before, w) == if w in words[..Flushed(|words|, perFile, i)] && w in store then 1 else 0
    ensures ShardsHolding(before + Step(words, store, perFile, perFolder, i), w) ==
              if w in words[..Flushed(|words|, perFile, i + 1)] && w in store then 1 else 0
  {
    var lo := ShardStart(i, perFile);
    var step := Step(words, store, perFile, perFolder, i);
    CountsAppend(before, step, w);
    StepHolding(words, store, perFile, perFolder, i, w);
    NextShardStart(i, perFile);
    assert Flushed(|words|, perFile, i) == lo;
    if i % perFile == 0 || i == |words| - 1 {
      FlushCover(words, store, lo, i, w);
      assert Flushed(|words|, perFile, i + 1) == i + 1;
    } else {
      assert ShardsHolding(step, w) == 0;
      assert Flushed(|words|, perFile, i + 1) == lo;
    }
  }

  /** Flushing `words[lo..i+1]` adds one holder for exactly the keys in that range. */
  lemma FlushCover(words: seq<string>, store: map<string, WordVec>, lo: nat, i: nat, w: string)
    requires Distinct(words) && lo <= i < |words|
    ensures (if w in words[..lo] && w in store then 1 else 0) + (if w in words[lo..i + 1] && w in store then 1 else 0) ==
              if w in words[..i + 1] && w in store then 1 else 0
  {
    SplitMembers(words, lo, i + 1, w);
    var before, range, upto := w in words[..lo], w in words[lo..i + 1], w in words[..i + 1];
    assert upto <==> before || range;
    assert !(before && range);
  }

  /** After iterations 0 .. k-1, the flushed words are each in exactly one shard and no other word is in any. */
  lemma {:induction false} StepsCover(words: seq<string>, store: map<string, WordVec>, perFile: nat, perFolder: nat,
                                      k: nat, w: string)
    requires Distinct(words) && perFile > 0 && perFolder > 0 && k <= |words|
    ensures ShardsHolding(Steps(words, store, perFile, perFolder, k), w) ==
              if w in words[..Flushed(|words|, perFile, k)] && w in store then 1 else 0
  {
    if k == 0 {
      assert Flushed(|words|, perFile, 0) == 0;
      assert words[..0] == [];
    } else {
      StepsCover(words, store, perFile, perFolder, k - 1, w);
      CoverStep(words, store, perFile, perFolder, k, w);
    }
  }

  /** The inductive step of `StepsCover`. */
  lemma CoverStep(words: seq<string>, store: map<string, WordVec>, perFile: nat, perFolder: nat, k: nat, w: string)
    requires Distinct(words) && perFile > 0 && perFolder > 0 && 0 < k <= |words|
    requires ShardsHolding(Steps(words, store, perFile, perFolder, k - 1), w) ==
               if w in words[..Flushed(|words|, perFile, k - 1)] && w in store then 1 else 0
    ensures ShardsHolding(Steps(words, store, perFile, perFolder, k), w) ==
              if w in words[..Flushed(|words|, perFile, k)] && w in store then 1 else 0
  {
    StepCover(Steps(words, store, perFile, perFolder, k - 1), words, store, perFile, perFolder, k - 1, w);
  }

  /** Every entry of the store is written to exactly one shard file, and nothing else is written. */
  lemma EveryEntryInOneShard(store: map<string, WordVec>, n: nat, f: nat, w: string)
    requires Defined(|store|, n, f)
    ensures ShardsHolding(Plan(SortedKeys(store.Keys), store, n, f), w) == if w in store then 1 else 0
  {
    var words := SortedKeys(store.Keys);
    SortedDistinct(words);
    assert [CreateRoot][..0] == [];
    if |words| == 0 {
      assert Plan(words, store, n, f) == [CreateRoot];
      assert w !in words;
    } else {
      var steps := Steps(words, store, |words| / n, |words| / f, |words|);
      CountsAppend([CreateRoot], steps, w);
      StepsCover(words, store, |words| / n, |words| / f, |words|, w);
      assert words[..|words|] == words;
    }
  }

  // ---------------------------------------------------------------------------
  // What each write holds and how it is named.

  /** The write that iteration i performs, when it performs one. */
  ghost predicate WriteAt(words: seq<string>, store: map<string, WordVec>, perFile: nat, perFolder: nat, i: nat, a: Action)
  {
    i < |words| && perFile > 0 && perFolder > 0 && (i % perFile == 0 || i == |words| - 1) &&
    a == WriteShard(words[FolderStart(i, perFolder)], words[i], Shard(words, store, ShardStart(i, perFile), i + 1))
  }

  /** Every write among iterations 0 .. k-1 is the write of one of those iterations. */
  lemma {:induction false} StepsWrites(words: seq<string>, store: map<string, WordVec>, perFile: nat, perFolder: nat, k: nat)
    requires perFile > 0 && perFolder > 0 && k <= |words|
    ensures forall idx :: 0 <= idx < |Steps(words, store, perFile, perFolder, k)| &&
                          Steps(words, store, perFile, perFolder, k)[idx].WriteShard? ==>
              exists i :: 0 <= i < k && WriteAt(words, store, perFile, perFolder, i, Steps(words, store, perFile, perFolder, k)[idx])
  {
    if k > 0 {
      var i := k - 1;
      var before := Steps(words, store, perFile, perFolder, i);
      var step := Step(words, store, perFile, perFolder, i);
      StepsWrites(words, store, perFile, perFolder, i);
      var all := before + step;
      forall idx | 0 <= idx < |all| && all[idx].WriteShard?
        ensures exists i' :: 0 <= i' < k && WriteAt(words, store, perFile, perFolder, i', all[idx])
      {
        if idx < |before| {
          assert all[idx] == before[idx];
        } else {
          assert WriteAt(words, store, perFile, perFolder, i, all[idx]);
        }
      }
    }
  }

  /** Every write in the plan is the write of some iteration. */
  lemma PlanWrites(words: seq<string>, store: map<string, WordVec>, n: nat, f: nat, idx: nat)
    requires Defined(|words|, n, f)
    requires idx < |Plan(words, store, n, f)| && Plan(words, store, n, f)[idx].WriteShard?
    ensures exists i :: WriteAt(words, store, |words| / n, |words| / f, i, Plan(words, store, n, f)[idx])
  {
    var steps := Steps(words, store, |words| / n, |words| / f, |words|);
    StepsWrites(words, store, |words| / n, |words| / f, |words|);
    assert Plan(words, store, n, f)[idx] == steps[idx - 1];
  }

  /** The entries of a shard are the store's entries for the words in its range. */
  lemma ShardMember(words: seq<string>, store: map<string, WordVec>, lo: nat, hi: nat, w: string)
    requires lo <= hi <= |words|
    requires w in Shard(words, store, lo, hi)
    ensures w in store && Shard(words, store, lo, hi)[w] == store[w]
    ensures exists j :: lo <= j < hi && words[j] == w
  {
    var y :| 0 <= y < hi - lo && words[lo..hi][y] == w;
    assert words[lo + y] == w;
  }

  /** In a strictly sorted list, an earlier word is below a later one. */
  lemma SortedBelow(words: seq<string>, j: nat, i: nat)
    requires StrictlySorted(words) && j < i < |words|
    ensures Below(words[j], words[i])
  {
  }

  /** An entry of the shard `words[lo..i+1]` is the store's, and is below `words[i]` unless it is `words[i]`. */
  lemma ShardEntry(words: seq<string>, store: map<string, WordVec>, lo: nat, i: nat, w: string)
    requires StrictlySorted(words) && lo <= i < |words|
    requires w in Shard(words, store, lo, i + 1)
    ensures w in store && Shard(words, store, lo, i + 1)[w] == store[w]
    ensures w != words[i] ==> Below(w, words[i])
  {
    ShardMember(words, store, lo, i + 1, w);
    var j :| lo <= j < i + 1 && words[j] == w;
    if j < i {
      SortedBelow(words, j, i);
    }
  }

  /** The shape of one write over a strictly sorted list of keys. */
  lemma WriteShape(words: seq<string>, store: map<string, WordVec>, perFile: nat, perFolder: nat, i: nat, a: Action)
    requires StrictlySorted(words) && (forall j :: 0 <= j < |words| ==> words[j] in store)
    requires WriteAt(words, store, perFile, perFolder, i, a)
    ensures forall w :: w in a.shard ==> w in store && a.shard[w] == store[w]
    ensures a.file in a.shard
    ensures forall w :: w in a.shard && w != a.file ==> Below(w, a.file)
    ensures a.folder == a.file || Below(a.folder, a.file)
  {
    var lo := ShardStart(i, perFile);
    assert words[lo..i + 1][i - lo] == words[i];
    forall w | w in a.shard
      ensures w in store && a.shard[w] == store[w]
      ensures w != a.file ==> Below(w, a.file)
    {
      ShardEntry(words, store, lo, i, w);
    }
    var s := FolderStart(i, perFolder);
    if s < i {
      SortedBelow(words, s, i);
    }
  }

  /**
   * Every shard file holds entries of the store with their own records; its
   * file is named after its largest word, which it holds; and it lies in a
   * folder named after a word no larger than that.
   */
  lemma ShardsNamedAfterLargest(store: map<string, WordVec>, n: nat, f: nat, idx: nat)
    requires Defined(|store|, n, f)
    requires idx < |Plan(SortedKeys(store.Keys), store, n, f)|
    requires Plan(SortedKeys(store.Keys), store, n, f)[idx].WriteShard?
    ensures var a := Plan(SortedKeys(store.Keys), store, n, f)[idx];
            && (forall w :: w in a.shard ==> w in store && a.shard[w] == store[w])
            && a.file in a.shard
            && (forall w :: w in a.shard && w != a.file ==> Below(w, a.file))
            && (a.folder == a.file || Below(a.folder, a.file))
  {
    var words := SortedKeys(store.Keys);
    var a := Plan(words, store, n, f)[idx];
    PlanWrites(words, store, n, f, idx);
    var i :| WriteAt(words, store, |words| / n, |words| / f, i, a);
    assert forall j :: 0 <= j < |words| ==> words[j] in store;
    WriteShape(words, store, |words| / n, |words| / f, i, a);
  }

  // ---------------------------------------------------------------------------
  // Writes go into the current folder.

  /** The folder current after iterations 0 .. k-1: the one opened at the last multiple of `perFolder` below k. */
  function CurrentFolder(words: seq<string>, perFolder: nat, k: nat): Option<string>
    requires perFolder > 0 && k <= |words|
  {
    if k == 0 then None else Some(words[FolderStart(k - 1, perFolder)])
  }

  /** Iteration i keeps every write in the current folder and leaves its own folder current. */
  lemma StepCurrentFolder(before: seq<Action>, words: seq<string>, store: map<string, WordVec>, perFile: nat,
                          perFolder: nat, i: nat)
    requires perFile > 0 && perFolder > 0 && i < |words|
    requires WritesIntoCurrentFolder(before) && LastFolder(before) == CurrentFolder(words, perFolder, i)
    ensures var after := before + Step(words, store, perFile, perFolder, i);
            WritesIntoCurrentFolder(after) && LastFolder(after) == CurrentFolder(words, perFolder, i + 1)
  {
    var write := WriteShard(words[FolderStart(i, perFolder)], words[i], Shard(words, store, ShardStart(i, perFile), i + 1));
    var created: seq<Action> := if i % perFolder == 0 then [CreateFolder(words[i])] else [];
    var written: seq<Action> := if i % perFile == 0 || i == |words| - 1 then [write] else [];
    assert Step(words, store, perFile, perFolder, i) == created + written;
    if i % perFolder != 0 {
      NextFolder(i, perFolder);
    }
    OpenThenWrite(before, created, written, words[FolderStart(i, perFolder)]);
  }

  /**
   * Opening `folder` (or finding it already current) and then writing into it
   * keeps every write in the current folder and leaves `folder` current.
   */
  lemma OpenThenWrite(before: seq<Action>, created: seq<Action>, written: seq<Action>, folder: string)
    requires WritesIntoCurrentFolder(before)
    requires created == [CreateFolder(folder)] || (created == [] && LastFolder(before) == Some(folder))
    requires written == [] || (|written| == 1 && written[0].WriteShard? && written[0].folder == folder)
    ensures WritesIntoCurrentFolder(before + (created + written))
    ensures LastFolder(before + (created + written)) == Some(folder)
  {
    var mid := before + created;
    if created == [] {
      assert mid == before;
    } else {
      AppendFolder(before, folder);
    }
    if written == [] {
      assert before + (created + written) == mid;
    } else {
      AppendCurrent(mid, written[0]);
      assert before + (created + written) == mid + [written[0]];
    }
  }

  lemma {:induction false} StepsCurrentFolder(words: seq<string>, store: map<string, WordVec>, perFile: nat, perFolder: nat,
                                              k: nat)
    requires perFile > 0 && perFolder > 0 && k <= |words|
    ensures WritesIntoCurrentFolder(Steps(words, store, perFile, perFolder, k))
    ensures LastFolder(Steps(words, store, perFile, perFolder, k)) == CurrentFolder(words, perFolder, k)
  {
    if k > 0 {
      StepsCurrentFolder(words, store, perFile, perFolder, k - 1);
      StepCurrentFolder(Steps(words, store, perFile, perFolder, k - 1), words, store, perFile, perFolder, k - 1);
    }
  }

  /** A write appended to a trace keeps the property when it targets the trace's last folder. */
  lemma AppendCurrent(s: seq<Action>, a: Action)
    requires WritesIntoCurrentFolder(s)
    requires a.WriteShard? && LastFolder(s) == Some(a.folder)
    ensures WritesIntoCurrentFolder(s + [a]) && LastFolder(s + [a]) == LastFolder(s)
  {
    var t := s + [a];
    assert t[..|s|] == s;
    forall idx | 0 <= idx < |t| && t[idx].WriteShard?
      ensures LastFolder(t[..idx]) == Some(t[idx].folder)
    {
      if idx < |s| {
        assert t[..idx] == s[..idx];
      }
    }
  }

  /** A folder creation appended to a trace keeps the property and becomes the last folder. */
  lemma AppendFolder(s: seq<Action>, folder: string)
    requires WritesIntoCurrentFolder(s)
    ensures WritesIntoCurrentFolder(s + [CreateFolder(folder)]) && LastFolder(s + [CreateFolder(folder)]) == Some(folder)
  {
    var t := s + [CreateFolder(folder)];
    forall idx | 0 <= idx < |t| && t[idx].WriteShard?
      ensures LastFolder(t[..idx]) == Some(t[idx].folder)
    {
      assert t[..idx] == s[..idx];
    }
  }

  /** Every shard file of the plan goes into the folder created most recently before it (never into `dist` itself). */
  lemma WritesGoIntoCurrentFolder(words: seq<string>, store: map<string, WordVec>, n: nat, f: nat)
    requires Defined(|words|, n, f)
    ensures WritesIntoCurrentFolder(Plan(words, store, n, f))
  {
    var plan := Plan(words, store, n, f);
    var steps := if |words| == 0 then [] else Steps(words, store, |words| / n, |words| / f, |words|);
    assert plan == [CreateRoot] + steps;
    if |words| > 0 {
      StepsCurrentFolder(words, store, |words| / n, |words| / f, |words|);
    }
    forall idx | 0 <= idx < |plan| && plan[idx].WriteShard?
      ensures LastFolder(plan[..idx]) == Some(plan[idx].folder)
    {
      assert plan[idx] == steps[idx - 1];
      assert plan[..idx] == [CreateRoot] + steps[..idx - 1];
      LastFolderAfterRoot(steps[..idx - 1]);
    }
  }

  // ---------------------------------------------------------------------------
  // Where folders are created.

  /** The folder that iteration i creates, when it creates one. */
  ghost predicate FolderAt(words: seq<string>, perFolder: nat, i: nat, a: Action)
  {
    i < |words| && perFolder > 0 && i % perFolder == 0 && a == CreateFolder(words[i])
  }

  /** Every folder created by iterations 0 .. k-1 is named after the word at a multiple of `perFolder`. */
  lemma {:induction false} StepsFolders(words: seq<string>, store: map<string, WordVec>, perFile: nat, perFolder: nat, k: nat)
    requires perFile > 0 && perFolder > 0 && k <= |words|
    ensures forall idx :: 0 <= idx < |Steps(words, store, perFile, perFolder, k)| &&
                          Steps(words, store, perFile, perFolder, k)[idx].CreateFolder? ==>
              exists i :: 0 <= i < k && FolderAt(words, perFolder, i, Steps(words, store, perFile, perFolder, k)[idx])
  {
    if k > 0 {
      var i := k - 1;
      var before := Steps(words, store, perFile, perFolder, i);
      StepsFolders(words, store, perFile, perFolder, i);
      var all := before + Step(words, store, perFile, perFolder, i);
      forall idx | 0 <= idx < |all| && all[idx].CreateFolder?
        ensures exists i' :: 0 <= i' < k && FolderAt(words, perFolder, i', all[idx])
      {
        if idx < |before| {
          assert all[idx] == before[idx];
        } else {
          assert FolderAt(words, perFolder, i, all[idx]);
        }
      }
    }
  }

  /**
   * Every folder of the plan is named after the word at an index that is a
   * multiple of `N / f`; with the folder count below, these are all such
   * indices.
   */
  lemma PlanFolders(words: seq<string>, store: map<string, WordVec>, n: nat, f: nat, idx: nat)
    requires Defined(|words|, n, f)
    requires idx < |Plan(words, store, n, f)| && Plan(words, store, n, f)[idx].CreateFolder?
    ensures exists i :: FolderAt(words, |words| / f, i, Plan(words, store, n, f)[idx])
  {
    var steps := Steps(words, store, |words| / n, |words| / f, |words|);
    StepsFolders(words, store, |words| / n, |words| / f, |words|);
    assert Plan(words, store, n, f)[idx] == steps[idx - 1];
  }

  // ---------------------------------------------------------------------------
  // How many folders and files.

  /** The number of multiples of `p` below k. */
  function Multiples(k: nat, p: nat): nat
    requires p > 0
  {
    if k == 0 then 0 else Multiples(k - 1, p) + (if (k - 1) % p == 0 then 1 else 0)
  }

  /** One more index adds one to the rounded-up quotient exactly when it is a multiple. */
  lemma CeilStep(k: nat, p: nat)
    requires p > 0
    ensures (k + p) / p == (k + p - 1) / p + (if k % p == 0 then 1 else 0)
  {
    var q, r := k / p, k % p;
    if r == 0 {
      DivModUnique(k + p, p, q + 1, 0);
      DivModUnique(k + p - 1, p, q, p - 1);
    } else {
      DivModUnique(k + p, p, q + 1, r);
      DivModUnique(k + p - 1, p, q + 1, r - 1);
    }
  }

  /** There are ceil(k / p) multiples of `p` below k. */
  lemma {:induction false} MultiplesCeil(k: nat, p: nat)
    requires p > 0
    ensures Multiples(k, p) == (k + p - 1) / p
  {
    if k == 0 {
      DivModUnique(p - 1, p, 0, p - 1);
    } else {
      MultiplesCeil(k - 1, p);
      CeilStep(k - 1, p);
    }
  }

  /** Appending iteration i to any trace adds its folder and its file, if it has them. */
  lemma AppendCounts(before: seq<Action>, words: seq<string>, store: map<string, WordVec>, perFile: nat, perFolder: nat,
                     i: nat)
    requires i < |words| && perFile > 0 && perFolder > 0
    ensures FolderCount(before + Step(words, store, perFile, perFolder, i)) ==
              FolderCount(before) + if i % perFolder == 0 then 1 else 0
    ensures FileCount(before + Step(words, store, perFile, perFolder, i)) ==
              FileCount(before) + if i % perFile == 0 || i == |words| - 1 then 1 else 0
  {
    CountsAppend(before, Step(words, store, perFile, perFolder, i), "");
    StepCounts(words, store, perFile, perFolder, i);
  }

  /** Iterations 0 .. k-1 open one folder per multiple of `perFolder` below k. */
  lemma {:induction false} StepsFolderCount(words: seq<string>, store: map<string, WordVec>, perFile: nat, perFolder: nat,
                                            k: nat)
    requires perFile > 0 && perFolder > 0 && k <= |words|
    ensures FolderCount(Steps(words, store, perFile, perFolder, k)) == Multiples(k, perFolder)
  {
    if k > 0 {
      StepsFolderCount(words, store, perFile, perFolder, k - 1);
      FolderCountStep(words, store, perFile, perFolder, k);
    }
  }

  /** The inductive step of `StepsFolderCount`: iteration k-1 opens a folder at multiples of `perFolder`. */
  lemma FolderCountStep(words: seq<string>, store: map<string, WordVec>, perFile: nat, perFolder: nat, k: nat)
    requires perFile > 0 && perFolder > 0 && 0 < k <= |words|
    requires FolderCount(Steps(words, store, perFile, perFolder, k - 1)) == Multiples(k - 1, perFolder)
    ensures FolderCount(Steps(words, store, perFile, perFolder, k)) == Multiples(k, perFolder)
  {
    var before := Steps(words, store, perFile, perFolder, k - 1);
    assert Steps(words, store, perFile, perFolder, k) == before + Step(words, store, perFile, perFolder, k - 1);
    var added := if (k - 1) % perFolder == 0 then 1 else 0;
    AppendCounts(before, words, store, perFile, perFolder, k - 1);
    assert FolderCount(before + Step(words, store, perFile, perFolder, k - 1)) == Multiples(k - 1, perFolder) + added;
    assert Multiples(k, perFolder) == Multiples(k - 1, perFolder) + added;
  }

  /** Before the last index, iterations 0 .. k-1 write one file per multiple of `perFile` below k. */
  lemma {:induction false} StepsFileCount(words: seq<string>, store: map<string, WordVec>, perFile: nat, perFolder: nat,
                                          k: nat)
    requires perFile > 0 && perFolder > 0 && k < |words|
    ensures FileCount(Steps(words, store, perFile, perFolder, k)) == Multiples(k, perFile)
  {
    if k > 0 {
      StepsFileCount(words, store, perFile, perFolder, k - 1);
      FileCountStep(words, store, perFile, perFolder, k);
    }
  }

  /** The inductive step of `StepsFileCount`: iteration k-1, not the last one, writes a file at multiples of `perFile`. */
  lemma FileCountStep(words: seq<string>, store: map<string, WordVec>, perFile: nat, perFolder: nat, k: nat)
    requires perFile > 0 && perFolder > 0 && 0 < k < |words|
    requires FileCount(Steps(words, store, perFile, perFolder, k - 1)) == Multiples(k - 1, perFile)
    ensures FileCount(Steps(words, store, perFile, perFolder, k)) == Multiples(k, perFile)
  {
    var before := Steps(words, store, perFile, perFolder, k - 1);
    assert Steps(words, store, perFile, perFolder, k) == before + Step(words, store, perFile, perFolder, k - 1);
    var added := if (k - 1) % perFile == 0 then 1 else 0;
    AppendCounts(before, words, store, perFile, perFolder, k - 1);
    assert FileCount(before + Step(words, store, perFile, perFolder, k - 1)) == Multiples(k - 1, perFile) + added;
    assert Multiples(k, perFile) == Multiples(k - 1, perFile) + added;
  }

  /** The last iteration always flushes. */
  lemma LastStepFlushes(words: seq<string>, store: map<string, WordVec>, perFile: nat, perFolder: nat)
    requires perFile > 0 && perFolder > 0 && |words| > 0
    ensures FileCount(Steps(words, store, perFile, perFolder, |words|)) ==
              FileCount(Steps(words, store, perFile, perFolder, |words| - 1)) + 1
  {
    var before := Steps(words, store, perFile, perFolder, |words| - 1);
    var last := Step(words, store, perFile, perFolder, |words| - 1);
    assert Steps(words, store, perFile, perFolder, |words|) == before + last;
    CountsAppend(before, last, "");
    StepCounts(words, store, perFile, perFolder, |words| - 1);
  }

  /** With N words, `partition` creates ceil(N / (N / f)) folders: one per multiple of the quotient below N. */
  lemma FolderTotal(words: seq<string>, store: map<string, WordVec>, n: nat, f: nat)
    requires Defined(|words|, n, f) && |words| > 0
    ensures FolderCount(Plan(words, store, n, f)) == (|words| + |words| / f - 1) / (|words| / f)
  {
    var steps := Steps(words, store, |words| / n, |words| / f, |words|);
    assert Plan(words, store, n, f) == [CreateRoot] + steps;
    CountsOne(CreateRoot, "");
    CountsAppend([CreateRoot], steps, "");
    StepsFolderCount(words, store, |words| / n, |words| / f, |words|);
    MultiplesCeil(|words|, |words| / f);
  }

  /**
   * With N words, `partition` writes ceil((N - 1) / (N / n)) + 1 files: one
   * per multiple of the quotient below N - 1, plus the final flush at N - 1.
   */
  lemma FileTotal(words: seq<string>, store: map<string, WordVec>, n: nat, f: nat)
    requires Defined(|words|, n, f) && |words| > 0
    ensures FileCount(Plan(words, store, n, f)) == (|words| - 1 + |words| / n - 1) / (|words| / n) + 1
  {
    var steps := Steps(words, store, |words| / n, |words| / f, |words|);
    assert Plan(words, store, n, f) == [CreateRoot] + steps;
    CountsOne(CreateRoot, "");
    CountsAppend([CreateRoot], steps, "");
    LastStepFlushes(words, store, |words| / n, |words| / f);
    StepsFileCount(words, store, |words| / n, |words| / f, |words| - 1);
    MultiplesCeil(|words| - 1, |words| / n);
  }

  /**
   * The truncating divisions overshoot the arguments: ten words split with
   * n = 4 and f = 3 give 6 files in 4 folders (10 / 4 = 2 words per file,
   * 10 / 3 = 3 words per folder).
   */
  lemma TenWordsExample(words: seq<string>, store: map<string, WordVec>)
    requires |words| == 10
    ensures FolderCount(Plan(words, store, 4, 3)) == 4
    ensures FileCount(Plan(words, store, 4, 3)) == 6
  {
    FolderTotal(words, store, 4, 3);
    FileTotal(words, store, 4, 3);
  }

  // ---------------------------------------------------------------------------
  // The first shard.

  /** The actions of the first j iterations are a prefix of those of the first k. */
  lemma {:induction false} StepsPrefix(words: seq<string>, store: map<string, WordVec>, perFile: nat, perFolder: nat,
                                       j: nat, k: nat)
    requires perFile > 0 && perFolder > 0 && j <= k <= |words|
    ensures |Steps(words, store, perFile, perFolder, j)| <= |Steps(words, store, perFile, perFolder, k)|
    ensures Steps(words, store, perFile, perFolder, k)[..|Steps(words, store, perFile, perFolder, j)|] ==
              Steps(words, store, perFile, perFolder, j)
  {
    if j < k {
      var before := Steps(words, store, perFile, perFolder, k - 1);
      assert Steps(words, store, perFile, perFolder, k) == before + Step(words, store, perFile, perFolder, k - 1);
      StepsPrefix(words, store, perFile, perFolder, j, k - 1);
    }
  }

  /**
   * Index 0 opens the first folder and flushes at once (0 is a multiple of
   * every quotient), so the first file holds the smallest word alone,
   * whatever n is.
   */
  lemma FirstShardSingleton(words: seq<string>, store: map<string, WordVec>, n: nat, f: nat)
    requires Defined(|words|, n, f) && |words| > 0 && words[0] in store
    ensures |Plan(words, store, n, f)| >= 3
    ensures Plan(words, store, n, f)[1] == CreateFolder(words[0])
    ensures Plan(words, store, n, f)[2] == WriteShard(words[0], words[0], map[words[0] := store[words[0]]])
  {
    var perFile, perFolder := |words| / n, |words| / f;
    var first := Steps(words, store, perFile, perFolder, 1);
    assert Steps(words, store, perFile, perFolder, 0) == [];
    assert words[0..1] == [words[0]];
    assert Shard(words, store, 0, 1) == map[words[0] := store[words[0]]];
    assert first == [CreateFolder(words[0]), WriteShard(words[0], words[0], map[words[0] := store[words[0]]])];
    StepsPrefix(words, store, perFile, perFolder, 1, |words|);
  }
}
