# pacman: a verified model of the package registry service

pacman is a small TCP service that keeps an in-memory registry of packages and their
dependencies. Clients send one command per line:

- `AddPackage name dep1 dep2 …`
- `RemovePackage name`
- `ListPackages`

The service answers each line with `"\n" + body + "\n"`.

This project models three parts of the service in Dafny and proves properties about them:

- **the registry:** `registry.go`;
- **the command handlers:** `handler.go`;
- **the session and accept loops:** `pacman.go`.

The modules are:

- `Wrappers`: `Option`.
- `Text`: the pieces of Go's `strings` and `fmt` that the service uses.
  - `strings.Split` on one character, characterised through its inverse, a join with that character.
  - `strings.Repeat`.
  - `strings.TrimRight` with a one-character cutset.
  - `%q` of a `[]string`, with a decoder and the round trip.
- `Sorting`: `sort.Strings`, as an ascending permutation.
  - Lexicographic order is proved to be a total order.
  - There is only one sorted permutation of a sequence, so the model's insertion sort gives the same result as the library's algorithm.
- `Registry`: the value-level view of `inMemoryStore`.
  - The record `Package` and the map `Packages`.
  - The descriptor of `onePackage.String` and the error messages.
  - The state each operation leaves: `Added`, `Removed`, and `Listing` with the sorting it does as a side effect.
  - The store invariants:
    - `Consistent`: every edge is recorded at both ends, with equal multiplicities, and every named package is registered.
    - `Ranked`: every dependency was registered before the package that depends on it.
  - The lemmas that connect these.
- `Store`: the class `InMemoryStore`. It holds a `packages` map that its methods update in place, loop by loop, as the Go code does. Each method is proved to leave exactly the state that `Registry` describes.
  - The class also has two ghost fields, a rank per package and a clock.
  - These witness `Ranked`, which is the termination argument for the otherwise unguarded recursion of `listOnePackage`.
- `Handler`: `addPackage`, `removePackage` and `listPackages` as functions.
  - The registry is a function parameter giving its answer to the one call a handler makes.
  - The outcome of the single write is a parameter too.
  - The bytes written can be decoded back into the response.
- `Pacman`:
  - the constants;
  - the per-line dispatch;
  - `handle` as a loop over lines that are already framed, with an oracle saying which line's handler or write fails;
  - the back-off rule;
  - `serve`'s accept loop, as a loop over the results of successive `Accept` calls.

Three behaviours of the code deserve a note, because a reader might expect otherwise:

- **`list` changes the registry, although it holds only the read lock.** `sort.Strings(deps)` in `listOnePackage` sorts the `dependsOn` slice stored in each visited record. So `list` leaves every stored dependency list sorted, and a record's `dependsOn` can change order after it was created. `Store.InMemoryStore.List` states this new state, and `Registry.SortAllValid` proves it keeps the invariants.
- **Unknown dependencies are filtered out.** A dependency that is not registered is dropped silently, and the add still succeeds.
- **The `input is empty` branch is dead.** In `handle` (`pacman.go:124-125`), splitting never yields zero segments, so an empty line dispatches as the unknown action `""`. `Pacman.Dispatch` keeps the branch and proves that it is never taken.

## Model

| member | source | states |
|---|---|---|
| Text.Split | pacman.go:123 | `strings.Split` on one character: there is always at least one token, and no token holds the separator |
| Text.JoinSplit | pacman.go:123 | joining the tokens of a split with the separator gives back the text, empty tokens included |
| Text.SplitJoin | pacman.go:123 | splitting undoes joining when no token holds the separator |
| Text.SplitAfterToken | pacman.go:123 | a separator-free first token followed by the separator splits into that token and the split of the rest |
| Text.Repeat | registry.go:120 | `strings.Repeat`: `n` copies, nothing else |
| Text.TrimRight | registry.go:112 | `strings.TrimRight` with one character: the result is a prefix, it does not end in the character, and everything cut was that character |
| Text.QuoteList | registry.go:23 | `%q` of a `[]string`: always bracketed, `[]` exactly when the list is empty, and otherwise opening with a quoted item |
| Text.ReadQuoteList | registry.go:23 | the `%q` rendering of a list of quote-free strings reads back as the list, and the following text is left untouched |
| Sorting.SortStrings | registry.go:107 | `sort.Strings`: the result is ascending and a permutation of the input |
| Sorting.SortedUnique | registry.go:107 | two ascending sequences with the same elements are equal, so any sorting algorithm gives the same result |
| Registry.Enumerate | registry.go:103-106 | ranging over the Go map and appending each key collects every registered name exactly once, in some order |
| Registry.SortedKeys | registry.go:103-107 | the collected keys after `sort.Strings`: every registered name exactly once, in ascending order |
| Sorting.SortPermutation | registry.go:103-107 | the sorted keys do not depend on the order in which the Go map yields them |
| Sorting.SortTwice | registry.go:122-123 | sorting an already sorted dependency slice changes nothing |
| Registry.DescriptorRoundTrip | registry.go:22-24 | the descriptor `package N with deps [..] and required by [..]` determines the record: it parses back to the same name and both lists |
| Registry.Describe | registry.go:22-24 | `onePackage.String`: for names without spaces or quotes, the descriptor parses back to exactly the record it describes |
| Registry.ParseListsRoundTrip | registry.go:23 | the two `%q` lists of the descriptor read back as given |
| Registry.Filter | registry.go:44-52 | `validDeps` holds each registered dependency as often as it was given, and no unregistered one |
| Registry.Without | registry.go:83-88 | `stillRequiredBy` holds no occurrence of the removed name and every other name as often as before |
| Registry.FilterAppend | registry.go:46-51 | filtering keeps the order of the given dependencies |
| Registry.AlreadyExists | registry.go:41-43 | the duplicate-name error is `package already exists: ` followed by the descriptor of the record already registered |
| Registry.NotExists | registry.go:65-68 | the absent-name error is `package not exists: ` followed by the name |
| Registry.StillRequired | registry.go:69-71 | the still-required error is `package <name> cannot be removed, it's required by ` followed by the `%q` list of dependents, which reads back as that list |
| Registry.Added | registry.go:44-57 | the state a successful add leaves: the old names plus the new one, whose record holds the registered dependencies in order and no dependents (`AddEffect` gives the other records) |
| Registry.AddEffect | registry.go:44-57 | after a successful add: the new record depends on exactly the registered dependencies and has no dependents; each registered dependency gets the name appended once per mention, after its old dependents; every other record is untouched |
| Registry.LinkedStep | registry.go:46-51 | one turn of `add`'s loop appends the name to the dependents of a registered dependency and changes nothing when the dependency is unknown |
| Registry.AddConsistent | registry.go:44-57 | a successful add keeps every edge recorded at both ends with equal multiplicities, and every named package registered |
| Registry.AddRanked | registry.go:47-57 | the new package ranks above all its dependencies, which are all registered, so the creation order is kept |
| Registry.AddKeeps | registry.go:37-59 | a successful add keeps both invariants |
| Registry.Removed | registry.go:72-77 | the state a successful remove leaves: the old names less the removed one, and every record that was not among its dependencies unchanged (`RemoveEffect` gives the others) |
| Registry.RemoveEffect | registry.go:72-77 | after a successful remove: the key is gone; each dependency loses every occurrence of the name from its dependents and keeps the others; nothing else changes |
| Registry.UnlinkedStep | registry.go:73-75 | one turn of `remove`'s loop filters the name out of one dependency's dependents; an unknown dependency is skipped |
| Registry.RemoveConsistent | registry.go:69-77 | removing a package with no dependents keeps both ends of every edge |
| Registry.RemoveRanked | registry.go:72-77 | removing a package keeps the creation order |
| Registry.RemoveKeeps | registry.go:61-79 | a successful remove keeps both invariants |
| Registry.RemoveUndoesAdd | registry.go:37-79 | removing a package right after adding it gives back the registry as it was |
| Registry.ListingEmpty | registry.go:98-100 | the empty registry lists as exactly `Packages and Dependencies\n- No packages found` |
| Registry.ListingOutline | registry.go:98-129 | a non-empty listing is the header followed by one line per visit, joined by newlines with no trailing newline; each line is `- name` after four spaces per depth; keys come in ascending order, and each package's children in ascending order |
| Registry.Listing | registry.go:94-113 | what `list` returns: the header, then the notice or every key's tree, never ending in a newline |
| Registry.ListingHeader | registry.go:98 | every listing starts with the header |
| Registry.Tree | registry.go:115-129 | `listOnePackage(name, level)`: the package's line, then the subtrees of its sorted dependencies one level deeper (`TreeText` and `TreeEmpty` state what it renders) |
| Registry.TreeEmpty | registry.go:116-119 | a subtree is empty exactly when the name is not registered |
| Registry.TreeText | registry.go:115-129 | the text of `listOnePackage` is its outline, one newline-terminated line per visit; it is empty exactly when the name is not registered, so missing names are skipped |
| Registry.Entry | registry.go:125-126 | an empty subtree adds nothing; any other one is added with its trailing newlines cut down to one (`ForestText` states what the loop builds from it) |
| Registry.ForestText | registry.go:124-128 | the loop over the dependencies appends each non-empty subtree with its trailing newlines cut down to one, which gives the concatenation of their lines |
| Registry.SortDeps | registry.go:122-123 | `sort.Strings(deps)` on the stored slice: the record keeps its name and dependents, and its dependency list becomes a sorted permutation of itself |
| Registry.SortSome | registry.go:122-123 | the registry after the records of a set of visited names have been sorted in place: the same names, with only those records changed, each to `SortDeps` of itself (`SortSomeAt`, `SortSomeTwice`) |
| Registry.TreeSortSome | registry.go:122-123 | the in-place sort done by an earlier listing step does not change what later steps print or visit |
| Registry.SortAllDeps | registry.go:122-123 | after a listing, every record keeps its name and dependents, and has its dependency list sorted |
| Registry.SortAllValid | registry.go:122-123 | sorting every stored dependency list keeps both invariants |
| Registry.Roots | registry.go:108-110 | the loop over the sorted keys concatenates their top-level trees (`RootsText` and `ListingOutline` state what that text is) |
| Registry.ListedAll | registry.go:108-110 | listing every key from the top visits every registered package and no other name |
| Store.InMemoryStore.constructor | registry.go:31-35 | `newInMemoryStore`: an empty, valid registry |
| Store.InMemoryStore.Add | registry.go:37-59 | a duplicate name fails with `package already exists: ` and the existing record's descriptor, and the map is unchanged; otherwise the state is `Added`, and the invariants still hold |
| Store.InMemoryStore.LinkDependents | registry.go:44-52 | the loop of `add`: its copy-modify-write-back steps leave `Linked`, and the collected list is `Filter` of the given dependencies |
| Store.InMemoryStore.Remove | registry.go:61-79 | an absent name fails with `package not exists: name`; a package with dependents fails with its `%q`-rendered dependents; in both cases the map is unchanged; otherwise the state is `Removed`, and the invariants still hold |
| Store.InMemoryStore.UnlinkDependencies | registry.go:73-75 | the loop of `remove` leaves `Unlinked` over the package's dependencies |
| Store.InMemoryStore.RemoveRequiredBy | registry.go:81-92 | a missing package leaves the map unchanged; otherwise only that record changes, and its dependents become `Without` the name |
| Store.InMemoryStore.List | registry.go:94-113 | `list` returns `Listing` of the registry it was called on, leaves every dependency list sorted, and keeps the invariants |
| Store.InMemoryStore.ListText | registry.go:98-112 | the header, then either the notice or every key's tree, and finally the trimming of trailing newlines |
| Store.InMemoryStore.ListAll | registry.go:102-110 | the non-empty branch: the trees of the sorted keys, after which every record has been sorted |
| Store.InMemoryStore.Keys | registry.go:103-107 | the map's keys collected in an arbitrary order and then sorted give the sorted key list |
| Store.InMemoryStore.ListRoots | registry.go:108-110 | the loop over the sorted keys concatenates their trees and sorts what each tree visits |
| Store.InMemoryStore.ListOnePackage | registry.go:115-119 | `listOnePackage` returns `Tree`, the empty string for an unregistered name, and sorts exactly the records it visits |
| Store.InMemoryStore.ListRegistered | registry.go:120-129 | a registered name gives its indented line, then its subtrees, after sorting its stored dependencies |
| Store.InMemoryStore.ListDependencies | registry.go:124-128 | the loop over the sorted dependencies gives `Forest` and sorts what the subtrees visit |
| Handler.Body | handler.go:30-57 | the text of each of the seven responses: the no-name error, the add and remove failures with the registry's reason after their prefixes, the two successes, the listing verbatim, and the session's unknown-action error of pacman.go:136 (`DecodeWire` proves that the texts are told apart by their bytes) |
| Handler.Wire | handler.go:28-58 | every response goes on the connection as a newline, its body and a newline |
| Handler.Decode | handler.go:28-58 | every response it reads back is one that was written exactly so |
| Handler.DecodeWire | handler.go:28-58 | the bytes of every response identify it: decoding them gives it back |
| Handler.AddReply | handler.go:28-39 | no arguments gives `no package name`; otherwise the registry's error gives `failed adding package` with that error as the reason, and success gives `Package added` |
| Handler.AddPackage | handler.go:28-40 | the exact bytes of each of the three responses, and the returned error is the write's and never the registry's |
| Handler.RemoveReply | handler.go:42-52 | no arguments gives `no package name`; otherwise the registry's error gives `failed removing package` with that error as the reason, and success gives `Package removed` |
| Handler.RemovePackage | handler.go:42-53 | the exact bytes of each of the three responses, and the returned error is the write's |
| Handler.ListPackages | handler.go:55-58 | the listing verbatim between two newlines, and the returned error is the write's |
| Handler.AddDecodes | handler.go:28-40 | what `addPackage` writes decodes as its reply |
| Handler.RemoveDecodes | handler.go:42-53 | what `removePackage` writes decodes as its reply |
| Handler.ListingDecodes | handler.go:55-58 | the registry's listing, as written, always decodes as a listing, never as a fixed response |
| Handler.AddWithoutName | handler.go:29-32 | without arguments the outcome does not depend on the registry: it is not called |
| Handler.AddAsksNameAndDeps | handler.go:33-34 | the outcome depends only on the registry's answer for `args[0]` as the name and `args[1:]` as the dependencies |
| Handler.RemoveWithoutName | handler.go:43-46 | without arguments the outcome does not depend on the registry |
| Handler.RemoveAsksFirstOnly | handler.go:47 | arguments after the first are ignored |
| Pacman.SessionWrite | pacman.go:124-136 | the session writes itself only for the empty-input and unknown actions; the unknown-action bytes are the framed `ERROR: unknown action` response and decode as it |
| Pacman.Dispatch | pacman.go:123-137 | a line never reaches the empty-input branch, and the add and remove handlers get every segment after the first |
| Pacman.DispatchTokens | pacman.go:123-136 | a line of space-free tokens selects the handler by exact match of its first token and passes the other tokens on |
| Pacman.ListIgnoresArguments | pacman.go:133-134 | `ListPackages` followed by anything lists |
| Pacman.EmptyLineIsUnknown | pacman.go:123-136 | an empty line is the action `""`, which is unknown |
| Pacman.ActionsAreCaseSensitive | pacman.go:128-136 | `addpackage` is an unknown action |
| Pacman.DoubleSpaceEmptyName | pacman.go:123-130 | adjacent spaces leave an empty segment, which is passed on as an argument |
| Pacman.Handle | pacman.go:111-147 | each line is dispatched in turn; the session stops after the first line whose handler or write fails; the deadline is set once before the loop and once more after every line that succeeds |
| Pacman.NextDelay | pacman.go:69-76 | the new delay is 5 ms after a zero delay; otherwise it is double the old one when that is at most 1 s, and 1 s when it is more |
| Pacman.NextDelayBackoff | pacman.go:69-76 | the update rule computes the reference delay: 5 ms times 2^(n-1) after n consecutive temporary errors, capped at 1 s |
| Pacman.BackoffBounds | pacman.go:69-76 | the delay stays within [5 ms, 1 s], never shrinks while errors continue, and is 1 s from the ninth error on |
| Pacman.EighthDelay | pacman.go:69-76 | the eighth consecutive delay is still below the cap: 640 ms |
| Pacman.Sleeps | pacman.go:69-78 | every sleep lies within [5 ms, 1 s] |
| Pacman.Serve | pacman.go:59-87 | the loop runs until the first error that is not temporary; it signals shutdown exactly when there is one; it sleeps once per temporary error for the reference delay of the current run of such errors; it hands on every accepted connection |
| Pacman.AcceptResets | pacman.go:84 | a successful accept resets the delay, so the next temporary error sleeps 5 ms again |

## Left out

- TLS, configuration and binding are not modelled. This covers `listen` (`pacman.go:35-45`) and `config.go`; they are socket and crypto library calls.
- `main.go` and `logger.go` are not part of this model. They only wire up the service and set up logging.
- Concurrency is not modelled. This covers the goroutines, the `done` and `shutdown` channels, `signal.Notify` and the `RWMutex`. Each registry operation is taken as atomic.
  - `list` holds only the read lock, yet `sort.Strings` writes the stored slices. Two concurrent `list` calls therefore race on those slices. The model shows the sequential effect only.
- The external shutdown signal is not modelled. It is the `select` on `p.shutdown` in `serve`; the model's loop ends only at the end of its input or at a non-temporary error.
- Logging through zap is not modelled: it does not affect behaviour.
- Pacman.Handle: takes lines as already framed. It does not model `bufio.Scanner` over `io.LimitedReader`, nor the reset of the 1024-byte budget after each line, so a line over the budget is not modelled, and `MaxLineLenBytes` is kept only as the constant. Which handler call or write fails is an input, one flag per line.
- Pacman.Handle: keeps the number of read deadlines set and not their time values. `time.Now` and `ReadWriteTimeout` are kept only as the constant.
- Pacman.Serve: takes the results of `Accept` as an input sequence. It returns the sleeps as values and the connections handed on as a count; `time.Sleep` and `go p.handle` are not performed.
- Handler: the registry is a function parameter standing for the answer of `add` or `remove`, and the error of the connection's write is a parameter. The `error` value returned by the registry is modelled as its message, which is what `%s` prints.
- Handler: the write of `ListPackages` is shown with the listing given as a string. `Handler.ListingDecodes` connects it to `Registry.Listing`.
- Pacman.Dispatch: the handler calls it selects are returned as values. `Pacman.SessionWrite` gives the session's own writes for the unknown and empty-input actions. The empty-input branch cannot be reached, because `strings.Split` never returns an empty slice.
- Text.Quote: models Go's `%q` only for printable strings with no quote or backslash, which it leaves unescaped. Names holding a quote, a backslash, a non-printable rune or invalid UTF-8 are not modelled. `Registry.DescriptorRoundTrip` therefore requires names without quotes or spaces.
- Sorting.SortStrings: compares code points rather than UTF-8 bytes. The two orders agree.
- Store.InMemoryStore.Keys: models the arbitrary order of Go's map iteration as one fixed, unspecified enumeration. `Sorting.SortPermutation` shows that the order does not affect the sorted result.
- Store.InMemoryStore: the ghost `rank` and `clock` fields have no counterpart in the Go code. They only carry the termination argument for `listOnePackage`.
- Slice aliasing is not modelled: `append` on a shared backing array, and the sharing of `deps` with the stored record. The in-place sort is modelled as an update of the stored record, which is its effect.
