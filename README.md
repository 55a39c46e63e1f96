# Pydioms in Dafny

A model of the higher-order iteration helpers in `Pydioms.py`. The model covers four of them:

- `end_pipe(func, item)` calls `func` once for its side effect and returns `item`.
- `se_pipe(func, iterable)` is a generator. It calls `func` on each element and then yields the element unchanged.
- `cond_map(patterns, iterable)` is a first-match-wins guarded map. Elements that no predicate accepts are dropped.
- `key_split(pred, iterable)` groups the elements into a dictionary from key to list, keeping input order within each list.

Caller-supplied callables are total Dafny function values. Iterables are finite sequences.

The side effect of `func` in the two pipes is made observable as a trace of events. A `Call(arg, result)` event records one invocation; the pipe discards its result. An `Emit(value)` event records one value handed to the consumer. The order of the events is the order in which things happen.

`key_split` is a method with a `for` loop that updates a local `map<K, seq<T>>` in place, as the source updates its `bag` dictionary. It is proved equal to `Grouped`, a declarative definition: the key set is the image of the input under the key function, and each list is the input filtered by key.

`cond_map` is modelled two ways:

- `CondMap`, a recursive function, mirrors the generator.
- `CondMapLoop` mirrors the nested loop with `break`. It is proved equal to `CondMap`.

`CondMap` itself is characterised against `MatchPositions`, the increasing list of positions of the accepted inputs.

Files:

- `pipes.dfy` (module `Pipes`): `end_pipe`, `se_pipe`
- `cond_map.dfy` (module `ConditionalMap`): `cond_map`
- `key_split.dfy` (module `Grouping`): `key_split`

## Model

| member | source | states |
|---|---|---|
| Pipes.EndPipe | Pydioms.py:1-7 | The returned value is exactly `item`. The trace holds exactly one call, made with `item`. Nothing is emitted. |
| Pipes.SePipe | Pydioms.py:15-17 | Consuming the generator produces exactly two events per input element. |
| Pipes.SePipeYieldsInput | Pydioms.py:15-17 | The values yielded are exactly the input, in the same order. |
| Pipes.SePipeCallsEachOnce | Pydioms.py:15-16 | `func` is called exactly once per element, in input order. |
| Pipes.SePipeCallBeforeYield | Pydioms.py:15-17 | In the trace of a full consumption, the call on the i-th element comes right after element i-1 is yielded and right before element i is yielded. |
| ConditionalMap.FirstMatch | Pydioms.py:36-39 | The inner scan returns an index whose predicate holds and no earlier predicate holds. It returns None exactly when no predicate holds. |
| ConditionalMap.FirstMatchIgnoresLaterRules | Pydioms.py:36-39 | Once a rule accepts an element, rules added after it do not change the decision, so later rules are not consulted. |
| ConditionalMap.CondMap | Pydioms.py:31-39 | The output is never longer than the input. |
| ConditionalMap.MatchPositions | Pydioms.py:35-39 | Reference definition: strictly increasing positions, each one an input some rule accepts, covering every accepted input. |
| ConditionalMap.CondMapAppend | Pydioms.py:35-36 | Each element is handled on its own, with the scan restarted from the first rule. The output of a concatenation is the concatenation of the outputs. |
| ConditionalMap.CondMapSpec | Pydioms.py:35-39 | There is one output per accepted input, in input order. The k-th output is the first accepting rule's function applied to the k-th accepted input. Rejected inputs contribute nothing. |
| ConditionalMap.CondMapLoop | Pydioms.py:35-39 | The nested loop with `break` produces exactly what `CondMap` specifies. |
| ConditionalMap.SignExample | Pydioms.py:31-39 | With rules "negative gives neg" and "zero gives zero", the input -1, 0, 1 yields exactly "neg", "zero". |
| Grouping.Group | Pydioms.py:47-50 | A key's list is no longer than the input, and every element in it has that key. |
| Grouping.GroupAppend | Pydioms.py:45-50 | The list for a key over a concatenated input is the concatenation of the two lists. |
| Grouping.GroupEmptyIff | Pydioms.py:46-50 | A key's list is empty exactly when no input produces that key. |
| Grouping.GroupedStep | Pydioms.py:46-50 | One loop iteration appends the element to its key's existing list, or creates a one-element list for a new key. All other lists are unchanged. |
| Grouping.KeySplit | Pydioms.py:41-51 | The dictionary built in place by the loop equals the declarative grouping `Grouped`. Its keys are the image of the input under the key function, and each key's list is the input filtered by that key, in input order. |
| Grouping.KeySplitKeys | Pydioms.py:46-50 | The keys are exactly those some input produces. Every list is non-empty. Every element of the list under `q` has key `q`. |
| Grouping.KeySplitPlacesEach | Pydioms.py:45-50 | Every input element is stored in its key's list, at the position given by the number of earlier inputs with the same key. |
| Grouping.KeySplitPreservesOrder | Pydioms.py:42-43 | If two inputs have the same key, the earlier one sits earlier in that key's list: both are stored in `Grouped(key, xs)[q]`, at positions given by their counts of earlier same-key inputs, and the earlier one's position is smaller. |
| Grouping.KeySplitTotal | Pydioms.py:45-50 | The lengths of all lists add up to the input length, so every element is stored exactly once. |
| Grouping.ParityExample | Pydioms.py:41-51 | Grouping 1..5 by `x % 2` gives `{1: [1, 3, 5], 0: [2, 4]}`. |

## Left out

- `swap_pipe` (Pydioms.py:19-29) is not modelled. Its body calls `func(item)` with `item` unbound in that scope, so it fails as written. Its stated purpose is to yield aliases of one mutable object, which is about heap identity rather than a transformation of values.
- `dispatch_all` (Pydioms.py:53-57) is not modelled. It looks methods up by name at run time, which has no counterpart here. Its body also uses the unbound `name` instead of its parameter `fname`.
- Laziness is not modelled. The generators `se_pipe` and `cond_map` are modelled by the whole sequence they produce when fully consumed, and inputs are finite sequences. For `se_pipe`, the interleaving of calls and yields is kept in the event trace.
- ConditionalMap.CondMap: `patterns` is taken as a re-iterable list of pairs, so the scan restarts from the first rule for every element. A one-shot iterator such as `zip(...)` would not restart the scan: after it is exhausted, every later element would be dropped. The same holds for `CondMapLoop`, `CondMapAppend` and `CondMapSpec`.
- Exceptions raised by the callables, and fail-fast propagation, are not modelled. Every callable is total.
- Truthiness is not modelled. Predicates return `bool`, not arbitrary truthy values.
- The side effects of `func` are seen only through the call trace. Their effect on other state is not modelled.
- Object identity is not modelled. `end_pipe` returns the same value; Python's `is` identity is not separately modelled.
- The insertion order of keys in a Python dictionary is not modelled. It is a language guarantee, not something the code states, and the result is a Dafny `map`.
