# krunner-nix: a Dafny model of the runner's decision logic

krunner-nix is a KRunner plugin. It searches the nixpkgs package catalog as the user types. It offers each hit as a match with two actions: run the package, or open a shell with it. This project models the pure logic of `src/main.rs` and proves what that logic promises:

- **Actions** (`actions.dfy`): the closed `Action` enum (`Run`, `Shell`) with `all`, `from_id`, `to_id` and `info`.
- **Tokenizer** (`tokenizer.dfy`): `tokenizer`, which splits on the single space char. It keeps empty tokens and never changes case.
- **Catalog** (`catalog.dfy`): `Runner::new` once the catalog is parsed. Entries are numbered in order. Each program's `id` is overwritten with the part of its attribute path after the second `.`. Each program is registered with the search index under its position as key. The source panics on a path with fewer than two dots; `Load` returns an error naming the first such entry.
- **Matching** (`matching.dfy`): `Runner::to_match` (title, subtitle, icon, exact-or-possible match type, the actions `[Run, Shell]`, relevance passed through) and the lazy `map(to_match).take(10)` pipeline of `matches`.
- **Dispatch** (`dispatch.dfy`): the `konsole -e nix run|shell nixpkgs#<id> …` command line that `run` starts.
- **Strings** (`strings.dfy`) and **Util** (`util.dfy`): the Rust library routines these rely on. These are `str::split`, `str::splitn` (with its search for the next separator), `str::trim` (with Rust's `char::is_whitespace`, the 25 Unicode White_Space code points), `char::to_ascii_lowercase` and `str::eq_ignore_ascii_case`.

The search index (`probly_search`) is a foreign library. It appears in the model only through its inputs and outputs:

- the documents `add_document` receives (a key plus the tokens of each indexable field);
- the `(key, score)` results a query returns, taken as an input sequence.

Scores are carried through unread.

## Model

| member | source | states |
|---|---|---|
| Actions.All | src/main.rs:18-20 | every action occurs, none twice, two in all, `Run` first (so exactly `[Run, Shell]`) |
| Actions.FromId | src/main.rs:22-28 | a found action has the given id; `None` means no action has that id |
| Actions.ToId | src/main.rs:30-36 | every action's id is `"run"` or `"shell"`, and it is `"run"` exactly for `Run` |
| Actions.FromIdToId | src/main.rs:22-36 | `from_id(to_id(a)) == Some(a)` for every action |
| Actions.FromIdAccepts | src/main.rs:22-28 | `from_id` succeeds exactly on `"run"` and `"shell"` |
| Actions.Info | src/main.rs:38-49 | the static display text and icon of each action |
| Actions.InfoDistinguishesActions | src/main.rs:38-49 | different actions have different texts and different icons |
| Tokenizer.Tokenize | src/main.rs:205-207 | one token more than there are spaces; no token holds a space; tokens joined by single spaces give back the input char for char (case kept) |
| Tokenizer.TokenizeJoin | src/main.rs:205-207 | space-free tokens joined by spaces tokenize back to themselves (split and join are inverse) |
| Tokenizer.TokenizeEmpty | src/main.rs:205-207 | the empty string gives one empty token |
| Tokenizer.TokenizeKeepsCase | src/main.rs:205-207 | inputs with the same tokens are the same string, so `Hello` and `hello` stay distinct |
| Strings.Split | src/main.rs:206 | `split(c)`: count of pieces is count of separators plus one; pieces are separator-free; joining restores the input |
| Strings.SplitJoin | src/main.rs:206 | splitting what Join built returns the pieces |
| Strings.IndexOf | src/main.rs:99 | the first position of a char, or `None` exactly when the char is absent |
| Strings.SplitN | src/main.rs:99 | `splitn(n, c)`: `min(n, separators + 1)` pieces, all but the last separator-free |
| Strings.SplitNJoin | src/main.rs:99 | joining the `splitn` pieces restores the input |
| Strings.Trim | src/main.rs:130 | `trim` yields a slice of the input with only whitespace cut from either end, and its ends are not whitespace |
| Strings.TrimOfPadded | src/main.rs:130 | trimming whitespace padding around a core with non-whitespace ends gives the core |
| Strings.IsWhitespace | src/main.rs:130 | `char::is_whitespace` holds exactly for the 25 listed White_Space code points; among ASCII chars, exactly for space and tab through carriage return (vertical tab included) |
| Strings.WhiteSpaceCodePointsAscending | src/main.rs:130 | the White_Space list has 25 entries, strictly increasing, so no code point is listed twice |
| Strings.AsciiLower | src/main.rs:130 | lowering yields no upper-case ASCII letter and changes only `A`-`Z`, by 32 |
| Strings.EqIgnoreAsciiCase | src/main.rs:130 | two strings are equal ignoring ASCII case exactly when they have the same length and each pair of chars is the same char or one ASCII letter in its two cases |
| Strings.EqIgnoreAsciiCaseIsLowerEquality | src/main.rs:130 | ASCII case-insensitive equality is equality after lowering every ASCII letter |
| Strings.EqIgnoreAsciiCaseIsEquivalence | src/main.rs:130 | ASCII case-insensitive equality is reflexive, symmetric and transitive |
| Catalog.IndexableFields | src/main.rs:61-67 | the indexed text is `id`, `description`, `pname`, in that order |
| Catalog.DeriveId | src/main.rs:99 | a derived id is a proper suffix of the attribute path |
| Catalog.DeriveIdIsThirdPiece | src/main.rs:99 | the id is `splitn(3, '.').nth(2)`, as the source computes it |
| Catalog.DeriveIdDefined | src/main.rs:99 | an id exists exactly when the path holds at least two dots (else the source's `unwrap` panics) |
| Catalog.DeriveIdAfterSecondDot | src/main.rs:99 | the id starts right after a dot, and the path before it holds exactly two dots |
| Catalog.DeriveIdOfParts | src/main.rs:99 | `a.b.c` with dot-free `a`, `b` gives id `c`, whatever dots `c` holds |
| Catalog.DeriveIdExample | src/main.rs:99 | `legacyPackages.x86_64-linux.hello` gives `hello` |
| Catalog.DeriveIdKeepsLaterDots | src/main.rs:99 | `a.b.c.d` gives `c.d` |
| Catalog.Registered | src/main.rs:101 | the document for a program carries its key and, per indexable field in order, the tokenizer's tokens of that field: space-free, and joining back to the field |
| Catalog.Loaded | src/main.rs:98-99 | a loaded program has the derived id and the entry's description, pname and version |
| Catalog.Load | src/main.rs:95-104 | loading succeeds exactly when every path yields an id; on failure it names the first bad entry and its position; on success program `i` is entry `i` with its id derived, and the index holds one document per program under key `i` |
| Matching.Title | src/main.rs:123-128 | `"Nix: " + id`, followed by `" (" + version + ")"` exactly when the version is non-empty |
| Matching.TitleDeterminesVersion | src/main.rs:123-128 | for one id, different versions give different titles |
| Matching.TitleExamples | src/main.rs:123-128 | `hello` with `1.2.3` gives `Nix: hello (1.2.3)`; with no version, `Nix: hello` |
| Matching.FormatMatch | src/main.rs:111-144 | the match has the program's id, its title, its description verbatim, the icon `nix-snowflake`, the actions `[Run, Shell]` and the score unchanged; it is exact iff the trimmed query equals the id ignoring ASCII case |
| Matching.ToMatch | src/main.rs:111-144 | the step-by-step construction of `to_match` builds exactly FormatMatch's match |
| Matching.ExactMatchForPaddedId | src/main.rs:130-134 | the id typed in any ASCII case with any surrounding whitespace is an exact match, when the id has no whitespace at its ends |
| Matching.NoExactMatchForIdOpeningWithSpace | src/main.rs:130-134 | an id that begins with whitespace is never an exact match |
| Matching.TakeFormatted | src/main.rs:160-162 | `map(to_match).take(n)` gives the formatted first `min(n, len)` results in order |
| Matching.Matches | src/main.rs:157-163 | at most 10 matches: the formatted first `min(10, len)` results, in the index's order |
| Matching.IndexedResultsAreFormattable | src/main.rs:116-121 | with a loaded runner, every result naming an indexed document selects an existing program |
| Dispatch.Target | src/main.rs:180 | the target is `nixpkgs#` followed by the match id |
| Dispatch.RunCommand | src/main.rs:173-200 | `konsole -e nix <verb> nixpkgs#<id> --extra-experimental-features nix-command`, where the verb is the id of `Shell` for `Some(Shell)` and of `Run` otherwise |
| Dispatch.DefaultIsRun | src/main.rs:187-199 | `None` and `Some(Run)` give the same command |
| Dispatch.ShellDiffersOnlyInVerb | src/main.rs:173-200 | `Shell` and `Run` commands agree everywhere except the verb, `shell` against `run` |
| Dispatch.RunCommandInjective | src/main.rs:173-200 | the command determines the match id and whether a shell was chosen |

## Left out

- Fetching the catalog is not modelled. The source runs `nix search nixpkgs --json` and reads its output (src/main.rs:79-90); that is process I/O. The same goes for printing the program count (src/main.rs:106).
- JSON deserialisation is not modelled. `serde_json` parses the output into a `HashMap<String, Program>` (src/main.rs:92-93). The model takes the parsed catalog as a sequence of (attribute path, record) entries.
- The order of entries is not modelled. Keys come from `HashMap` iteration, whose order is unspecified. `Load` numbers the entries in whatever order it is given them, and nothing is claimed about which program gets which key.
- The `probly_search` index internals are not modelled: `Index::new`, how `add_document` stores postings, `query`, and `zero_to_one` scoring. This is foreign code with floating-point scores. The index is modelled as the documents registered with it, and query results are an input. Scores are `real` values that are only passed through. No claim is made about their range, their order or tie-breaking. No claim is made about what an empty query returns either. The model shows only that it tokenizes to one empty token.
- Field weighting is not modelled. The source builds the index with one field (`Index::new(1)`) fed by one accessor that returns three strings. The model records the tokens of each of the three strings and claims nothing about weights.
- Starting `konsole` is not modelled, and neither is the `.unwrap()` that panics if it fails to start (src/main.rs:175-198). This is process I/O. Only the command line is modelled.
- D-Bus registration, `tokio`/`async_trait`, the `Context` arguments, the `Ok` wrappers and `main` are not modelled (src/main.rs:147-150, 209-214). This is IPC and concurrency plumbing.
- The fields of `krunner::Match` that the runner leaves at their defaults are not modelled.
- Catalog.Load: the source panics on the first attribute path with fewer than two dots, and no runner is built. The model returns an error value for that entry instead of aborting.
- Strings.EqIgnoreAsciiCase: Rust compares UTF-8 bytes, while the model compares chars. The two tests agree, because a byte below 0x80 only ever encodes an ASCII char and lowering changes no other byte.
- Matching.FormatMatch, Matching.ToMatch, Matching.TakeFormatted, Matching.Matches: these require each formatted result's key to select a program, in place of the out-of-bounds panic of `&self.programs[key]` (src/main.rs:121). Matching.IndexedResultsAreFormattable shows the requirement holds whenever the index returns keys it was given by `Load`.
