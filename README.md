# shy: ssh-config host picker, verified model

This project models the core of `shy`, a terminal picker that reads host aliases out of `~/.ssh/config` and lets the user move through them or search them, then returns the chosen alias. It models three parts:

- **The ssh-config parser** (`parse_ssh_config`), in `ssh_config.dfy`.
  - It scans the file one character at a time. Its scan state is the token being read, the tokens of the current line, the "skip to end of line" flag, the key/value flag, and the table built so far (the current `Host` stanza and the host map).
  - `Step` is one iteration of that loop, and `Parse` is the left fold of `Step` over the file.
  - The method `ParseSshConfig` keeps the source's loop and its local variables, and is proved equal to `Parse`.
  - A second, line-level reading (`Tokens`, `ParseLine`, `ParseLines`) states what a line means. It is proved to agree with the character scan on files made of comment-free lines. The properties of the host table are stated on it.
- **`HostMap`**, in `host_map.dfy`. This is `IndexMap<String, String>`, modelled as a sequence of pairs with distinct keys. Inserting an existing key replaces its value in place and keeps its position.
- **`OrderedMap`**, in `ordered_map.dfy`. This is a key vector plus a `map`. Its `insert` moves an existing key to the end.
  - Its methods update the fields in place and keep the invariant: no duplicate keys, and the key vector holds exactly the map's domain.
  - The key and entry iterators yield the keys in order.
- **The key-handling state machine of `TUI`**, in `tui.dfy`.
  - The state is the mode, the search input, the selected row and the host table.
  - `Step` (`update`), `InputStep` (`update_input`), `Searched` (`search_for_host`) and `Drive` (the decision part of `run`, over a given sequence of keys) state the behaviour.
  - The methods of class `TUI` change the fields in place and are proved to agree with those functions.

`ascii.dfy` holds the ASCII lower-casing used for directive names and for search, and `wrappers.dfy` holds `Option` and `Result`.

The model keeps the following behaviour of the code, some of which may surprise a user of the tool:

- **A last line without a line break is ignored.** The loop ends and the table is returned without handling the pending tokens (`LastLineDropped`, `UnterminatedLineExample`).
- **`Foo Bar Baz` is not an error.** Once the key is read, spaces inside a value are kept, so this line holds two tokens, `Foo` and `Bar Baz`. It is an unknown directive and is ignored (`MultiWordValueExample`). For the same reason, a trailing space in a `Host` value makes it a pattern.
- **A `#` after a value leaves the line pending.** The newline is swallowed with the comment, so the line is only processed at the next line break.
  - If the next line holds a directive and no `#`, the parse fails: that line becomes a third token (`CommentLine`, `CommentAfterValue`).
  - If the next line also ends in a comment, its text becomes a further pending token and its line break is consumed too. The scan does not fail there, and a file that ends at that point returns the table without the pair (`CommentAfterPending`).
  - If a blank line comes first, the pending pair is applied there, but the scan stays in value mode. So the next line that holds a directive and no `#` is read as a single token, and the parse fails. Example: `Host web#c`, then a blank line, then `Hostname x` fails with the one token `Hostname x` (`CommentThenBlank`).
- **Search selects the last alias that starts with the input**, ignoring case. Without a match the selection stays, and Enter launches whatever is selected (`LastMatch`, `LastMatchWins`).
- **`q` quits in every mode, search mode included.** In search mode, Escape and Ctrl-C clear the input and return to navigation.
- **Ctrl-P and Ctrl-N act as Up and Down.** Only `i` and `s` enter search mode.
- **Enter launches the alias** at the selected row, not the `Hostname` value stored for it.
- **Re-inserting a host alias keeps its position** in the host table (`HostMaps.Insert`). `OrderedMap.insert` instead moves the key to the end.

## Model

| member | source | states |
|---|---|---|
| Ascii.Lower | src/ssh_config.rs:59 | ASCII lower-casing keeps the length, leaves no upper-case letter, and each character equals the original ignoring case |
| Ascii.LowerIdempotent | src/tui.rs:196 | Lower-casing twice is lower-casing once, so comparing lower-cased names is stable |
| HostMaps.Get | src/ssh_config.rs:4 | Lookup in the host table: `None` exactly when the alias is not a key, otherwise a value stored with that key |
| HostMaps.IndexOf | src/ssh_config.rs:4 | The position of an alias: the first index holding that key, `None` exactly when it is absent |
| HostMaps.Insert | src/ssh_config.rs:74-79 | Update-in-place insert: an existing key keeps its position and the key order is unchanged, a new key is appended at the end, distinct keys stay distinct, and the new pair is in the result while every other pair was already there |
| HostMaps.InsertGet | src/ssh_config.rs:74-79 | After inserting `k -> v`, looking up `k` gives `v` and every other key gives what it gave before |
| SshConfig.Directive | src/ssh_config.rs:59-84 | A complete line only ever appends at most one key after the existing ones; the stanza becomes empty or the value, or nothing changes; a directive other than `host`/`hostname` (ignoring case) changes nothing |
| SshConfig.Step | src/ssh_config.rs:22-94 | One character: it fails only at a line break outside a comment, with a non-empty token list whose length is not 2; only such a line break can change the table; afterwards the skip flag is set exactly when the character was `#` or a comment continues |
| SshConfig.ScanFrom | src/ssh_config.rs:22-94 | The scan of any text fails only with a non-empty malformed token list whose length is not 2 |
| SshConfig.Parse | src/ssh_config.rs:12-97 | The result of the whole parse: an error always carries a non-empty token list whose length is not 2 |
| SshConfig.ParseSshConfig | src/ssh_config.rs:12-97 | The character loop, with the source's variables, returns exactly `Parse(config)`: the host table, or the first malformed line's tokens as the error |
| SshConfig.ScanAppend | src/ssh_config.rs:22-94 | Scanning `a + b` scans `a`, then continues from that state over `b`; an error in `a` ends the scan |
| SshConfig.SkipSeps | src/ssh_config.rs:87-89 | With no token started, spaces and `=` are skipped without changing anything |
| SshConfig.ReadWord | src/ssh_config.rs:37-43 | While reading a key, characters up to the first space or `=` are added to the token |
| SshConfig.ReadValue | src/ssh_config.rs:87-93 | Once a value has started, every character of the line, spaces included, is added to it |
| SshConfig.ReadAfterKey | src/ssh_config.rs:87-93 | After the key, the value read is the rest of the line with its leading spaces and `=` dropped |
| SshConfig.ScanSegment | src/ssh_config.rs:30-93 | The characters of a comment-free line, before its line break, leave the scan in the pending state of that line's tokens |
| SshConfig.ScanLine | src/ssh_config.rs:44-86 | A comment-free line followed by `\n` has the effect of the line-level reading `ParseLine`: nothing for a blank line, an error for a token count other than 2, otherwise the directive |
| SshConfig.ScanLines | src/ssh_config.rs:22-94 | Scanning lines joined by `\n` equals reading them one by one, stopping at the first malformed line |
| SshConfig.ParseByLines | src/ssh_config.rs:12-97 | The parse of a file of comment-free lines is the line-by-line reading from the empty table |
| SshConfig.NoLineBreakKeepsTable | src/ssh_config.rs:22-94 | Characters with no line break never fail and never change the table |
| SshConfig.LastLineDropped | src/ssh_config.rs:94-96 | A final line without `\n` changes nothing: `Parse(config + tail) == Parse(config)` |
| SshConfig.SkipComment | src/ssh_config.rs:23-28 | After a `#`, everything up to and including the next `\n` is consumed, and only the skip flag is reset |
| SshConfig.CommentLine | src/ssh_config.rs:23-36 | A line `p#q` leaves `p`'s tokens pending on the line and the table unchanged; the key flag is reset only if no value had started |
| SshConfig.SepsKeepState | src/ssh_config.rs:37-43 | Separators with no token started leave any scan state as it was, whatever tokens are pending and whatever the key flag |
| SshConfig.BlankOrCommentLine | src/ssh_config.rs:23-52 | A line of separators and a comment leaves any scan state with no token started as it was, pending tokens and key flag included; a blank line does the same when no tokens are pending |
| SshConfig.CommentAfterValue | src/ssh_config.rs:23-57 | After a `key value` pair followed by a comment, a next line that holds a directive and no `#` makes the parse fail with the three pending tokens |
| SshConfig.CommentAfterPending | src/ssh_config.rs:23-43 | With a pair pending in value mode, a next line that ends in a comment adds its text as a further pending token, consumes its line break, and leaves the table unchanged |
| SshConfig.CommentThenBlank | src/ssh_config.rs:23-57 | After `key value # c` and a blank line, the pair is applied but the scan stays in value mode, so a following line that holds a directive and no `#` fails as one token |
| SshConfig.PendingPairAtBlank | src/ssh_config.rs:44-86 | A blank line applies a pending pair and leaves the key flag false |
| SshConfig.ValueModeLine | src/ssh_config.rs:44-57 | In value mode with nothing pending, a line with no `#`, spaces included, becomes one token and fails |
| SshConfig.SeparatorForms | src/ssh_config.rs:37-89 | `key value`, `key=value`, `key = value` and leading separators all give the tokens `[key, value]` and the same directive |
| SshConfig.LoneDirective | src/ssh_config.rs:44-57 | A line with a key and no value fails with that one token |
| SshConfig.MalformedAborts | src/ssh_config.rs:53-57 | A non-blank line whose token count is not 2 makes the whole parse fail with its tokens, whatever follows; no partial table is returned |
| SshConfig.HostLine | src/ssh_config.rs:60-76 | `Host` with a pattern (`*`, `!`, `?`, `,` or a space) clears the stanza and inserts nothing; a literal `Host X` maps `X` to `X`, leaves every other alias as it was, and makes `X` the stanza |
| SshConfig.HostnameLine | src/ssh_config.rs:77-82 | `Hostname V` with stanza `S` maps `S` to `V`, leaves every other alias as it was and clears the stanza; with no stanza it changes nothing, so a second `Hostname` line is ignored |
| SshConfig.DirectiveNames | src/ssh_config.rs:59-83 | Directive names match ignoring case; every other directive is read and leaves the table unchanged |
| SshConfig.DirectiveWellFormed | src/ssh_config.rs:59-82 | A directive keeps the table well formed: distinct literal keys, and a stanza that is empty or one of the keys |
| SshConfig.StepWellFormed | src/ssh_config.rs:22-94 | One character keeps the scan invariant: a well-formed table, and no empty token on the pending line |
| SshConfig.ScanWellFormed | src/ssh_config.rs:22-94 | The whole scan keeps that invariant |
| SshConfig.ParseWellFormed | src/ssh_config.rs:12-97 | Every parsed table has distinct keys, and each key is a non-empty literal `Host` value |
| SshConfig.TokensNonEmpty | src/ssh_config.rs:33-48 | No empty token is ever pushed onto a line |
| SshConfig.LineKeys | src/ssh_config.rs:59-85 | One line adds its literal `Host` alias at the end if it is new, and otherwise keeps the key order |
| SshConfig.LinesKeyOrder | src/ssh_config.rs:59-82 | The keys of the table are the literal `Host` aliases in order of first appearance |
| SshConfig.LineValues | src/ssh_config.rs:70-82 | One line adds at most a pair whose value is its key or that line's `Hostname` value |
| SshConfig.LinesValues | src/ssh_config.rs:77-82 | Each value in the table is its alias or a value from some `Hostname` line |
| SshConfig.FileTable | src/ssh_config.rs:12-97 | For a whole file: the keys are the literal `Host` aliases in order of first appearance, and each value is the alias itself or a `Hostname` value |
| SshConfig.SelfMappingExample | src/ssh_config.rs:70-75 | `Host web\n` gives the table `[web -> web]` |
| SshConfig.MultiWordValueExample | src/ssh_config.rs:37-93 | `Foo Bar Baz\n` parses to an empty table and does not fail |
| SshConfig.UnterminatedLineExample | src/ssh_config.rs:94-96 | `Host web` without a line break gives an empty table |
| OrderedMaps.Without | src/ordered_map.rs:24-26 | Removing the first occurrence of a key: absent keys change nothing, otherwise the length drops by one, no other key is lost or gained, and a duplicate-free vector stays duplicate-free without the key |
| OrderedMaps.WithoutAt | src/ordered_map.rs:24-26 | Removing the key at its position `i` leaves `keys[..i] + keys[i+1..]`, so the other keys keep their order |
| OrderedMaps.Position | src/ordered_map.rs:24 | The position search returns the first index holding the key, or `None` exactly when the key is absent |
| OrderedMaps.DistinctCount | src/ordered_map.rs:56-61 | A duplicate-free key vector has as many distinct elements as it has entries |
| OrderedMaps.OrderedMap.constructor | src/ordered_map.rs:15-20 | A new map is empty and valid |
| OrderedMaps.OrderedMap.Len | src/ordered_map.rs:56-61 | The length of the underlying map is the number of keys in order |
| OrderedMaps.OrderedMap.Get | src/ordered_map.rs:56-61 | Lookup through `Deref`: `None` exactly for keys not in the key vector, otherwise the stored value |
| OrderedMaps.OrderedMap.Insert | src/ordered_map.rs:23-29 | Move-to-end insert: the key is taken out of the vector and appended, and the value is replaced. A new key grows the length by one, an existing key keeps it. The lookup gives the new value. The invariant is kept |
| OrderedMaps.OrderedMap.Remove | src/ordered_map.rs:32-40 | Returns the old value if the key was present, and the key leaves both the vector and the map while the other keys keep their order. An absent key returns `None` and changes nothing. The invariant is kept |
| OrderedMaps.OrderedMap.Keys | src/ordered_map.rs:44-48 | The key iterator starts at the whole key vector |
| OrderedMaps.OrderedMap.Iter | src/ordered_map.rs:51-53 | The entry iterator starts at position 0 of this map |
| OrderedMaps.KeyIterator.Next | src/ordered_map.rs:70-72 | Yields the next key in order, then `None` |
| OrderedMaps.OrderedMapIterator.Next | src/ordered_map.rs:85-94 | Yields `(keys[curr], values[keys[curr]])` and advances, or `None` past the end |
| OrderedMaps.CollectKeys | src/ordered_map.rs:128 | Draining the key iterator gives the keys in insertion order |
| OrderedMaps.CollectEntries | src/ordered_map.rs:124-126 | Draining the entry iterator gives exactly the pairs `(k, values[k])` for `k` in key order |
| Tui.LastMatch | src/tui.rs:194-200 | The result is a row whose alias starts with the input (ignoring case) and no later row matches; `None` only when no row matches |
| Tui.Searched | src/tui.rs:194-200 | Only the selection changes; it becomes the last row whose alias starts with the input, and stays when no row matches |
| Tui.InputStep | src/tui.rs:126-143 | A search-mode key keeps the table; it either leaves for navigation with the input cleared, or keeps the mode; the input is kept, cleared, extended by the typed character, or shortened by one; the selection changes only to a row matching the new input; the selection stays valid |
| Tui.Step | src/tui.rs:88-123 | One key event: it fails exactly on Enter with no host at the selected row; it keeps the host table and a valid selection; a launch it starts names an alias of the table |
| Tui.NoEvent | src/tui.rs:89-91 | No event changes no state |
| Tui.MovesWrap | src/tui.rs:97-110 | With hosts present, Up selects `(selected + len - 1) % len` and Down selects `(selected + 1) % len`. So 0 wraps to `len - 1` and `len - 1` wraps to 0. Ctrl-P and Ctrl-N do the same |
| Tui.QuitKeys | src/tui.rs:94-131 | `q` quits in every mode. Ctrl-C quits in navigation, leaves search for navigation with the input cleared, and otherwise does nothing |
| Tui.SearchKeys | src/tui.rs:96 | `i` and `s` enter search mode from any mode and leave the input as it is |
| Tui.LeaveSearch | src/tui.rs:128-131 | In search mode, Escape and Ctrl-C clear the input and return to navigation |
| Tui.BackspaceEdits | src/tui.rs:132-136 | In search mode, Backspace removes the last character of a non-empty input, keeps an empty one, and leaves the selection alone |
| Tui.EnterLaunches | src/tui.rs:111-116 | Enter fails exactly when the table is empty, and otherwise launches the alias at the selected row |
| Tui.TypingSearches | src/tui.rs:118-140 | The input grows exactly when a character other than `q`, `i`, `s` or Enter is typed in search mode. The character is then appended. The selection moves to the last matching row, or stays when no row matches |
| Tui.LastMatchWins | src/tui.rs:194-200 | Over `docker1`, `docker2`, `nas01`, searching `do` selects `docker2`, the last match |
| Tui.Drive | src/tui.rs:70-85 | A run keeps the table and a valid selection, fails only when the table is empty, ends in `Launch(h)` when it returns `h`, and only launches an alias of the table |
| Tui.EnterAtStart | src/tui.rs:70-84 | Enter right after start launches the first alias |
| Tui.QuitEndsRun | src/tui.rs:77-78 | `q` ends the run at once with no host |
| Tui.TUI.constructor | src/tui.rs:38-46 | The picker starts in navigation with an empty input and the first row selected |
| Tui.TUI.Update | src/tui.rs:88-123 | Updates the fields as `Step` says, or returns the "can't find host" error and leaves them unchanged |
| Tui.TUI.UpdateInput | src/tui.rs:126-143 | Updates the fields as `InputStep` says |
| Tui.TUI.SearchForHost | src/tui.rs:194-200 | The loop leaves the selection at the last matching row, or unchanged, as `Searched` says; only `selected` is modified |
| Tui.TUI.Run | src/tui.rs:70-85 | Feeding the keys returns what `Drive` returns and leaves the state `Drive` reaches |

## Left out

- Terminal setup, cleanup, `Drop` and `draw`: raw-mode and escape-sequence output, with no decisions in them.
- Reading keys from standard input in `run`: the keys are a given sequence, and running out of keys ends the run with no host, as the end of input does.
- `load_ssh_config` and the `~` expansion: file I/O. The picker is built from a given host table. The call at src/tui.rs:71 passes no path, although the function takes one.
- src/main.rs and src/lib.rs: a terminal demo and module declarations.
- Unicode case folding: `Ascii.Lower` folds ASCII letters only.
- Tui.InputStep: Backspace removes one character of a sequence of characters. The source truncates one byte, which panics on a multi-byte character.
- Tui.Step: Up and Down require a non-empty table. On an empty table the source's `len() - 1` underflows: a panic when overflow checks are on, a wrap to the largest `usize` otherwise.
- The `Deref` of `OrderedMap` to its `HashMap`, and hashing: `values` is a Dafny `map`. Only the `len` and lookup used through `Deref` are modelled.
- SshConfig.FileTable: stated for files whose lines hold no `#`. Comments are covered line by line by `CommentLine`, `BlankOrCommentLine`, `CommentAfterValue`, `CommentAfterPending` and `CommentThenBlank`. `ParseSshConfig` itself handles every input.
- SshConfig.MalformedAborts: the lines before the malformed one must hold no `#`, for the same reason.
- SshConfig.ScanLines: stated for lines that hold no `#`, for the same reason.
- SshConfig.ParseByLines: stated for files whose lines hold no `#`, for the same reason.
- SshConfig.LinesKeyOrder: a statement about the line-level reading, which `ParseByLines` ties to the parse only for lines that hold no `#`.
- SshConfig.LinesValues: the same as `LinesKeyOrder`.
- The error values carry the offending tokens, not the formatted `io::Error` message.
