# sentence2vec, modelled in Dafny

sentence2vec is a Rust library that turns sentences into vectors. A sentence's
vector is the mean of the word2vec vectors of its words. Two sentences are then
compared with a cosine score. This project models the library's core in Dafny 4.11
and proves properties of the model:

- `WordVec<D>` and its cosine (`word_vec.dfy`);
- the `Word2Vec<D>` store: the text loader, lookup, per-word cosine and subset
  extraction (`word2vec.dfy`);
- `partition`, which shards the store into folders of binary files
  (`partition.dfy`, with its properties in `partition_properties.dfy`);
- the Rust `String` order and the sort that `partition` relies on
  (`lexicographic.dfy`);
- `Sentence2Vec<D>`: tokenising, averaging and sentence cosine
  (`sentence2vec.dfy`).

`Option` and `Result` live in `wrappers.dfy`.

Modelling choices:

- **Dimension.** The const generic `D` becomes the `dim` field of the store.
  `Valid(model)` says that every record has `dim` components. The field of
  `WordVec<D>` is a `Vec<f32>`, so the type does not enforce this. It holds for
  records built by `WordVec::new` and by `load_from_txt`, and `get_subset`
  keeps it. A record deserialised by bincode can have any length, and then
  `get_vec`'s `unwrap` panics. The operations that read components require
  `Valid`, so the model leaves that panic out.
- **Numbers.** Components are `real`, an idealisation of `f32`. The cosine is
  modelled as the source computes it: `dot² / (norm1 · norm2)`, where the norms
  are sums of squares. The score is therefore the square of the usual cosine.
  When the norm product is zero, `f32` gives NaN; the model returns the
  `Undefined` case of `Similarity` instead.
- **Files.** A file is replaced by the outcome of reading it:
  - `None` when it cannot be opened;
  - otherwise its lines, each `None` when reading that line failed. `flatten()`
    drops those lines.

  Lines of the text model arrive already split on whitespace. `str::parse::<f32>`
  is a parameter `parse: string -> Option<real>`.
- **Text operations.** `to_lowercase`, `char::is_alphanumeric` and
  `char::is_whitespace` are the function-valued fields of `TextOps`.
- **Partition.** `partition` does no I/O in the model. It returns the list of
  file-system actions the source performs, in order:
  - create the root;
  - create a folder named after a word;
  - write a shard (a map from words to records) to a file named after a word,
    inside a folder.

  The plan of actions is defined index by index (`Partitions.Plan`). The loop
  is proved to produce exactly that plan, and the plan's properties are proved
  as lemmas.

The model follows the code of `partition`, not its doc comment. The comment says
that there are `n` files in `f` folders, each named after the first word it
contains. The code does this:

- Each shard file is named after its LAST word. That is the largest word in the
  shard, because the loop flushes after inserting the current word.
- The first shard holds `words[0]` alone, because index 0 is a multiple of
  `N / n`.
- The truncating divisions `N / n` and `N / f` give `ceil(N / (N / f))` folders
  and `ceil((N - 1) / (N / n)) + 1` files. That is usually more than `f` and `n`:
  for N = 10, n = 4, f = 3 it gives 4 folders and 6 files.
- The source panics when `n` or `f` is 0, or when `N / n` or `N / f` is 0 while
  N > 0. The model's precondition `Defined` excludes exactly those arguments.

## Model

| member | source | states |
|---|---|---|
| WordVecs.New | src/word2vec.rs:16-18 | a new record has dimension D and holds the given components |
| WordVecs.AsArray | src/word2vec.rs:21-24 | the conversion to `[f32; D]` succeeds exactly when the record has D components, and yields those components |
| WordVecs.GetVecNeverFails | src/word2vec.rs:16-24 | `get_vec`'s `unwrap` never fails on a record built by `new` |
| WordVecs.Cosine | src/word2vec.rs:27-43 | the one-pass loop computes the squared-cosine score of the common prefix, or `Undefined` when the norm product is zero |
| WordVecs.SumSqZero | src/word2vec.rs:32-38 | a norm (sum of squares) is zero exactly when every component is zero |
| WordVecs.CosineSelf | src/word2vec.rs:27-43 | any non-zero vector scores exactly 1 against itself |
| WordVecs.CosineSymmetric | src/word2vec.rs:27-43 | the score does not depend on the order of the arguments |
| WordVecs.CosineOrthogonal | src/word2vec.rs:27-43 | orthogonal non-zero vectors score 0 |
| WordVecs.CosineUndefined | src/word2vec.rs:38-42 | the score is undefined (NaN in the source) exactly when one of the vectors is all zeros |
| WordVecs.CosineIgnoresSign | src/word2vec.rs:42 | squaring the dot product loses the sign: negating one vector leaves the score unchanged |
| WordVecs.CosineUnitExamples | src/word2vec.rs:221-230 | the unit test's values: [1,0] against itself scores 1, and against [0,1] scores 0 |
| Word2Vecs.FromWordVecs | src/word2vec.rs:91-93 | the store wraps the given map unchanged, and every record has the store's dimension |
| Word2Vecs.GetVec | src/word2vec.rs:210-212 | the lookup finds a record exactly when the word is a key, and returns that key's record |
| Word2Vecs.LookupHasDim | src/word2vec.rs:21-24 | a record found in a valid store always converts to a D-array |
| Word2Vecs.ParsedValues | src/word2vec.rs:73 | parsing yields at most one value per token |
| Word2Vecs.UnparsedTokenDropped | src/word2vec.rs:73 | a token that does not parse is skipped without affecting the other values |
| Word2Vecs.AllParsed | src/word2vec.rs:73 | when every token parses, the values are the parsed tokens, one for one and in order |
| Word2Vecs.AcceptsOnlyFirst | src/word2vec.rs:71-76 | a line is accepted for at most one word: its first token |
| Word2Vecs.LoadStep | src/word2vec.rs:70-80 | one loop iteration moves the loaded map from the state after lines 1..i-1 to the state after lines 1..i |
| Word2Vecs.LoadFromTxt | src/word2vec.rs:63-88 | `None` exactly when the file cannot be opened; otherwise the header is skipped, a word is a key iff some later line is accepted for it (it parses to exactly D values), its record comes from the last such line, and every record has dimension D |
| Word2Vecs.Cosine | src/word2vec.rs:118-123 | `None` exactly when either word is missing; otherwise the score of the two records |
| Word2Vecs.GetSubset | src/word2vec.rs:181-189 | the subset's keys are exactly the listed words the store knows; their records are the store's; the dimension and validity are kept |
| Word2Vecs.Readable | src/word2vec.rs:199 | the readable lines are exactly the lines that were read without error, and there are no more of them than lines |
| Word2Vecs.ReadableAppend | src/word2vec.rs:199 | `flatten` keeps the order: the readable lines of two parts of a file are those of the first part followed by those of the second |
| Word2Vecs.GetSubsetFromWordlist | src/word2vec.rs:194-205 | fails exactly when the list cannot be opened; otherwise keeps exactly the readable lines that are keys of the store, with the store's records |
| Lexicographic.BelowTransitive | src/word2vec.rs:144 | the order on strings is transitive |
| Lexicographic.BelowTotal | src/word2vec.rs:144 | any two distinct strings are ordered one way or the other |
| Lexicographic.Insert | src/word2vec.rs:144 | inserting into a strictly sorted list keeps it strictly sorted and adds exactly the new key |
| Lexicographic.SortedUnique | src/word2vec.rs:144 | two strictly sorted lists with the same elements are equal, so the sorted key list is determined by the key set |
| Lexicographic.SortWords | src/word2vec.rs:141-144 | sorting the keys yields the unique strictly sorted list of them |
| Partitions.Partition | src/word2vec.rs:129-177 | the actions performed are exactly the plan for the sorted keys |
| Partitions.PartitionSorted | src/word2vec.rs:147-176 | the loop over the sorted words performs exactly the plan, step by step |
| Partitions.Visit | src/word2vec.rs:153-175 | one iteration opens a folder at multiples of `N / f`, and flushes the pending shard at multiples of `N / n` and at the last index, leaving an empty shard |
| PartitionProperties.EveryEntryInOneShard | src/word2vec.rs:153-175 | every word of the store is written in exactly one shard, and nothing else is written |
| PartitionProperties.ShardsNamedAfterLargest | src/word2vec.rs:161-171 | every shard holds the store's own records; its file is named after a word it contains, and every other word in it sorts below that name; its folder's name sorts at or below the file's |
| PartitionProperties.WritesGoIntoCurrentFolder | src/word2vec.rs:154-171 | every write goes into the most recently created folder |
| PartitionProperties.PlanFolders | src/word2vec.rs:154-159 | every folder created is named after the word at a multiple of `N / f` |
| PartitionProperties.FolderTotal | src/word2vec.rs:147-159 | the number of folders is `ceil(N / (N / f))` |
| PartitionProperties.FileTotal | src/word2vec.rs:147-174 | the number of files is `ceil((N - 1) / (N / n)) + 1` |
| PartitionProperties.TenWordsExample | src/word2vec.rs:147-174 | ten words with n = 4 and f = 3 give 4 folders and 6 files, not the 3 and 4 the doc comment promises |
| PartitionProperties.FirstShardSingleton | src/word2vec.rs:153-174 | the first folder and the first file are both named after the first word of the list, and that file holds that word alone |
| Sentences.TrimMatches | src/sentence2vec.rs:18 | the result is the slice of the input left after removing every rejected character at both ends; a non-empty result begins and ends with a kept character |
| Sentences.TrimmedUnique | src/sentence2vec.rs:18 | only one slice of a string satisfies that description |
| Sentences.TrimIdempotent | src/sentence2vec.rs:18 | trimming twice is the same as trimming once |
| Sentences.SplitWhitespace | src/sentence2vec.rs:22 | every token is non-empty and contains no whitespace |
| Sentences.SplitMaximal | src/sentence2vec.rs:22 | the input is the tokens interleaved with all-whitespace gaps, and the gap between two consecutive tokens is never empty, so every token is a maximal run of non-whitespace characters |
| Sentences.SplitKeepsText | src/sentence2vec.rs:22 | the tokens, concatenated, are exactly the non-whitespace characters of the input, in order |
| Sentences.Tokens | src/sentence2vec.rs:16-23 | a sentence has one token per whitespace-separated piece of the lower-cased, trimmed sentence; every non-empty token begins and ends with an alphanumeric character |
| Sentences.TokensTrimmed | src/sentence2vec.rs:16-23 | a sentence has one token per whitespace-separated piece of the lower-cased, trimmed sentence, and each token is that piece trimmed |
| Sentences.EmptySentenceHasNoTokens | src/sentence2vec.rs:16-22 | the empty sentence has no tokens |
| Sentences.MatchCount | src/sentence2vec.rs:21-29 | the count of known tokens is at most the number of tokens, and it is zero exactly when no token is a known word |
| Sentences.UnknownTokenIgnored | src/sentence2vec.rs:24-29 | a token the store does not know changes neither the count nor the sums, wherever it appears |
| Sentences.SumsPermutation | src/sentence2vec.rs:22-30 | any reordering of the tokens (the same multiset) gives the same count and the same component sums |
| Sentences.AverageOrderFree | src/sentence2vec.rs:22-36 | any reordering of the tokens that has a known word gives the same mean vector |
| Sentences.AverageOfOne | src/sentence2vec.rs:20-37 | a sentence with a single known word gets exactly that word's vector |
| Sentences.AddToken | src/sentence2vec.rs:24-29 | one loop iteration over token t: the accumulator and the count go from the sums and count of tokens 0..t-1 to those of tokens 0..t |
| Sentences.AddInto | src/sentence2vec.rs:25-27 | adds a record into the accumulator component by component, in place |
| Sentences.DivideBy | src/sentence2vec.rs:34-36 | divides every accumulator component by the count, in place |
| Sentences.MeanOfTokens | src/sentence2vec.rs:20-38 | accumulating into a D-buffer gives `None` exactly when no token is known; otherwise it gives the component-wise mean of the known tokens' records, with dimension D |
| Sentences.GetVec | src/sentence2vec.rs:15-39 | `None` exactly when no token of the sentence is a known word; otherwise the mean of the known tokens' vectors, with dimension D |
| Sentences.Cosine | src/sentence2vec.rs:41-47 | `None` exactly when either sentence has no known word; otherwise the score of the two means |
| Sentences.EmptySentenceHasNoVector | src/sentence2vec.rs:31-33 | the empty sentence has no vector |
| Sentences.SentenceSelfSimilarity | src/sentence2vec.rs:41-47 | a sentence whose mean is not the zero vector scores exactly 1 against itself |

## Left out

- Saving and loading the store as bincode (`save_to_bytes`, `load_from_bytes`) and the byte encoding of partition shards: these are third-party serialisation. A shard write carries the map itself.
- Partitions.Partition: assumes every directory creation and every write succeeds. The source returns early with the I/O error at the first failure; the model has no failing action.
- File access (`read_lines` in `src/file.rs`, `create_dir_all`, `fs::write`): replaced by outcomes and the action trace described above.
- Partitions.Partition: an action names its folder and file by words, not by paths. `PathBuf::push` (src/word2vec.rs:156, 167) reads a `/`, a `..` or a leading `/` in a word as path syntax. `set_extension("bin")` (src/word2vec.rs:168) replaces whatever follows the last `.` of the word, so `U.K` and `U.S` both become `U.bin`. Two writes can therefore reach the same file, and a later one overwrites an earlier one. The shard properties (`EveryEntryInOneShard`, `ShardsNamedAfterLargest`, `WritesGoIntoCurrentFolder`) are about the trace of actions, not about the resulting directory tree.
- Word2Vecs.LoadFromTxt: a line that cannot be read is dropped by `flatten()`. When the read error repeats forever, as when the path names a directory, the source's loop (src/word2vec.rs:70) never ends. The model's file is a finite list of lines, so it does not capture that non-termination.
- Word2Vecs.GetSubsetFromWordlist: the same as for `LoadFromTxt`: a read error that repeats forever makes the loop at src/word2vec.rs:199 run forever, and the finite line list does not capture that.
- Word2Vecs.LoadFromTxt: takes each line already split on whitespace, so `split_whitespace` on a loaded line is not modelled. `str::parse::<f32>` is an abstract parameter.
- `f32` arithmetic: rounding, overflow, infinities and NaN are not modelled. The exact `1.0` and `0.0` of the unit tests hold over the reals, and NaN becomes `Undefined`.
- Sentences.Tokens: Unicode lower-casing and the alphanumeric and whitespace classes are abstract parameters. Only the empty-sentence lemma assumes anything about them: that lower-casing the empty string gives the empty string.
- Sentences.GetVec: requires a valid store. The source does not: a store loaded with `load_from_bytes` may hold a record whose length is not D. `get_vec` then panics at `unwrap` (src/word2vec.rs:23), and the precondition leaves that panic out.
- Word2Vecs.FromWordVecs: requires every record to have D components. Records made by `WordVec::new` or by `load_from_txt` always do; a deserialised record may not.
- `Sentence2Vec::new` is the datatype constructor `Sentence2Vec`. `WordVec::cosine`'s warning on a zero norm and every other log line are output only.
- The `async` wrappers, the `loading` and `partition` feature flags, and the command-line programs under `bin/` are left out: they are not part of the library core.
- The tests that read data files (`tests/load.rs`, and the similarity ordering in `tests/sentence2vec.rs`) depend on file contents that are not part of this model.
- Lexicographic.Below: compares strings by character (code point). That is the same order as the byte-wise order of Rust's `String` on UTF-8, but the model does not prove the equivalence.
