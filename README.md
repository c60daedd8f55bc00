# Two Sum, modelled in Dafny

This project models `Solution::twoSum`, the repository's solution to the Two Sum
problem. The function takes a vector of integers `nums` and a `target`. It makes
one pass over `nums` and keeps an `unordered_map<int,int>` from each value seen
so far to an index. At position `i` it computes `left = target - nums[i]`:

- if `left` is already a key, it returns `{m[left], i}` at once;
- otherwise it writes `m[nums[i]] = i` and goes on.

When the pass ends without a match it returns the empty vector.

`two_sum.dfy` holds the one module `TwoSum`:

- `TwoSum` is the method. It has a `map<int,int>` local, a `while` loop and an early
  `return`. Its input is an `array<int>` with no `modifies` clause, so the model
  shows that `nums` is only read, although the source takes it by non-const
  reference. Its result is a `seq<int>`, the returned vector.
- `Answer(s, t, r)` is the specification that every row of the table below relies
  on. It says what the returned vector is, without mentioning a table.
  It is `[]` exactly when no positions `i < j` have `s[i] + s[j] == t`.
  Otherwise it is `[i, j]`. Here `j` is the first position that completes a pair.
  `i` is the last position before `j` that holds `t - s[j]`.
- `TableAfter(s, n)` is the table after the first `n` writes. The loop invariant is
  `m == TableAfter(nums[..], i)`.
- `ReferencePair` is a quadratic scan that uses no table. It is a second,
  independent way to compute the answer.

Two places where the code and its description disagree. The model follows the code
in both.

- The header comment (`TwoSum.cpp:12`, `:17`) says the returned indices are not
  zero-based. The code returns the raw 0-based loop index (`TwoSum.cpp:35`).
  `HeaderExampleIsZeroBased` proves that `{2,7,11,15}` with target 9 gives `{0,1}`
  and not `{1,2}`.
- A reader might expect the table to keep the first index of a repeated value,
  that is, to insert only if the key is absent. The write at `TwoSum.cpp:37`
  overwrites, so the table keeps the latest index. The returned first index is
  therefore the largest matching one.
  `OverwriteKeepsLatest` shows the difference on `{1,1,5}` with target 6.

## Model

| member | source | states |
|---|---|---|
| TwoSum.TwoSum | Algo/1.TwoSum/TwoSum.cpp:30-41 | The result is the vector `Answer` describes. It is empty exactly when no pair exists. Otherwise it is the chosen pair, indices 0-based. It equals what the map-free `ReferencePair` scan computes. `nums` is never written. |
| TwoSum.TableAfter | Algo/1.TwoSum/TwoSum.cpp:31-38 | The table after `n` iterations without a match, each write `m[nums[k]] = k` overwriting the index of the same value. Its keys are exactly the values `nums[0..n-1]`. That each entry is the latest index below `n` holding its key is `TableAfterIndexesLatest`. |
| TwoSum.TableAfterIndexesLatest | Algo/1.TwoSum/TwoSum.cpp:31-38 | After `n` iterations the keys of the table are exactly the values `nums[0..n-1]`. Each `m[v]` is the largest index below `n` that holds `v`. |
| TwoSum.LastIndexBefore | Algo/1.TwoSum/TwoSum.cpp:34-37 | Gives the largest `k < j` with `s[k] == v`, or `None` exactly when no `k < j` holds `v`. It is the map-free counterpart of the lookup `m[left]`; `TableAfterIsLastIndex` proves the two agree. |
| TwoSum.PairFromIsAnswer | Algo/1.TwoSum/TwoSum.cpp:32-40 | If no position before `j` completes a pair, the reference scan from `j` gives the vector `Answer` describes. |
| TwoSum.ReferencePairIsAnswer | Algo/1.TwoSum/TwoSum.cpp:30-41 | The map-free quadratic scan gives the vector `Answer` describes. |
| TwoSum.AnswerIsReferencePair | Algo/1.TwoSum/TwoSum.cpp:30-41 | Every vector satisfying `Answer` is the one the reference scan computes. `TwoSum`'s second ensures rests on it. |
| TwoSum.TableAfterIsLastIndex | Algo/1.TwoSum/TwoSum.cpp:34-35 | After `j` iterations, `v` is a key of the table exactly when `LastIndexBefore` finds `v` below `j`, and then `m[v]` is that index. The table lookup and the map-free search agree. |
| TwoSum.HitIsChosen | Algo/1.TwoSum/TwoSum.cpp:34-35 | When `left` is a key of the table after `i` iterations with no earlier pair, `{m[left], i}` is the chosen pair. |
| TwoSum.MissEndsNoPair | Algo/1.TwoSum/TwoSum.cpp:34-37 | When `left` is not a key, no earlier position completes a pair with `i`, so the loop may go on. |
| TwoSum.AnswerIsSound | Algo/1.TwoSum/TwoSum.cpp:33-35 | A non-empty result has two elements `r0`, `r1` with `0 <= r0 < r1 < |nums|` and `nums[r0] + nums[r1] == target`. |
| TwoSum.AnswerEmptyIff | Algo/1.TwoSum/TwoSum.cpp:32-40 | The result is empty if and only if no `i < j` have `nums[i] + nums[j] == target`. |
| TwoSum.AnswerSecondIsEarliest | Algo/1.TwoSum/TwoSum.cpp:34-35 | The second index is at most every `j` that completes some pair: the early return stops at the first one. |
| TwoSum.AnswerFirstIsLatest | Algo/1.TwoSum/TwoSum.cpp:35-37 | Every `k` before the second index that holds `target - nums[r1]` is at most the first index. The overwrite keeps the latest occurrence. |
| TwoSum.AnswerIsUnique | Algo/1.TwoSum/TwoSum.cpp:30-41 | At most one vector satisfies `Answer`. So the function is deterministic: two calls on the same input return the same vector. |
| TwoSum.ShortInputIsEmpty | Algo/1.TwoSum/TwoSum.cpp:32-40 | Inputs of length 0 or 1 give the empty vector. |
| TwoSum.MainInputAnswer | Algo/1.TwoSum/TwoSum.cpp:45-47 | `{0,3,4,5,6}` with target 6 gives `{0,4}`. |
| TwoSum.HeaderExampleIsZeroBased | Algo/1.TwoSum/TwoSum.cpp:16-17 | `{2,7,11,15}` with target 9 gives the 0-based `{0,1}`, not the 1-based `{1,2}` the comment shows. |
| TwoSum.DuplicateValuesAnswer | Algo/1.TwoSum/TwoSum.cpp:33-37 | `{3,3}` with target 6 gives `{0,1}`. The lookup happens before the write, so an element never pairs with itself. |
| TwoSum.NoPairAnswer | Algo/1.TwoSum/TwoSum.cpp:32-40 | `{1,2,3,4}` with target 100 gives the empty vector. |
| TwoSum.OverwriteKeepsLatest | Algo/1.TwoSum/TwoSum.cpp:37 | `{1,1,5}` with target 6 gives `{1,2}`, not `{0,2}`: the second 1 overwrote the first in the table. |
| TwoSum.MainExample | Algo/1.TwoSum/TwoSum.cpp:44-47 | What `main` computes, without the printing: the answer for `{0,3,4,5,6}` and 6 is `{0,4}`. |

## Left out

- Integer width: Dafny's `int` is unbounded. In the source, `target - nums[i]` on 32-bit `int` can overflow, and that is undefined behaviour in C++. The model computes the mathematical difference. This equals the source wherever the source is defined.
- The loop counter `i` is an `int` compared with `nums.size()`. Vectors longer than `INT_MAX` are not modelled.
- `unordered_map` internals (hashing, buckets, rehashing) are not modelled. The table is a Dafny `map<int,int>`, and only its contents matter to the result.
- `main`: printing the answer to `cout` with an iterator is I/O. Only the computation it prints is modelled, by `MainExample`.
- The header comment assumes each input has exactly one solution. The code does not rely on this, so it is not a precondition. The model describes which pair is returned when there are several.
