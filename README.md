# A verified model of the Allura Git indexer and its neighbours

This project models, in Dafny, the logic at the centre of four files of the Allura
forge (formerly pyforge):

- **The Git repository implementation** (`ForgeGit/forgegit/model/git_repo.py`). It covers:
  - the repository lifecycle (`init`, `clone_from`) and the clone commands;
  - the wholesale refresh of heads, branches and tags;
  - the discovery of new commits from the head tips;
  - the paginated `log` walk;
  - the materialisation of commits, trees and blobs into a content-addressed store;
  - `prev`/`next` navigation between commits;
  - the decoding of hex object ids;
  - the chunked line iterator of an opened blob.
- **The local account model** (`pyforge/pyforge/model/auth.py`). It covers:
  - e-mail canonicalisation;
  - get-or-create of e-mail and OpenId records, and claiming them;
  - the password layout `sha256 + salt + digest` and its check;
  - special roles and the role-graph walk.
- **The Markdown extensions** (`Allura/allura/lib/markdown_extensions.py`). It covers:
  - HTML escaping;
  - the relative-link rewrite;
  - joining of include-macro lines;
  - the pattern-replacing preprocessor;
  - wrapping of artifact links;
  - `source:` reference URLs;
  - the content `div`.
- **The ticket form widgets** (`ForgeTracker/forgetracker/widgets/ticket_form.py`). It covers:
  - parsing of select options;
  - the widget factory for each custom-field type;
  - in-place filtering of milestone options;
  - the cached custom-field list;
  - the choice of the milestone field.

The Git backend is an immutable snapshot, `GitObjects.Backend`. Its parts are:
- commits by id, with ordered parents, tree, signatures and message;
- trees by id, with ordered entries (name, id, kind);
- heads, branches and tags.

The Allura store of commit, tree and blob records is a class, `GitStore.Store`. It holds maps keyed by object id, and its upsert methods return `(record, isnew)`.

Modules follow the source:
- `GitObjects`, `GitGraph`, `GitLog`, `GitStore`, `GitIndex`, `GitRepo`, `GitObjectId` and `GitBlob` for `git_repo.py`;
- `Auth`, `Markdown` and `TicketForm` for the other three files;
- `Text`, `Sets` and `Wrappers` for shared string, set and `Option` helpers.

Where the source updates objects in place, the model uses classes with `modifies` clauses:
- the repository record and `GitImplementation`;
- the store;
- users and the e-mail/OpenId directory;
- the opened blob and its line iterator;
- Markdown tree elements;
- the milestone select field;
- the custom-field cache.

Each loop of the source is a `while` or `for` loop proved against a specification function:
- `new_commits`;
- `log`;
- `_object`;
- the blob buffer refill;
- `role_iter`;
- the include joiner;
- the pattern-replacing preprocessor;
- the link tree processor;
- `MilestoneField.display`;
- `TicketCustomFields.fields`;
- `GenericTicketForm.fields`.

A few external pieces are parameters rather than models:
- the sort behind `new_commits`;
- the hash behind `encode_password`;
- the regular expressions of the Markdown extensions;
- the `is_nofollow_url` test.

## Model

| member | source | states |
|---|---|---|
| GitRepo.Repository.ReadonlyCloneCommand | ForgeGit/forgegit/model/git_repo.py:31-32 | the command starts with `git clone git://`, and the rest of it is exactly the repository's URL path |
| GitRepo.Repository.ReadwriteCloneCommand | ForgeGit/forgegit/model/git_repo.py:34-35 | the command starts with `git clone ssh://`, then holds the user name and one `@`, and the rest of it is exactly the URL path |
| GitRepo.CloneCommandsShareThePath | ForgeGit/forgegit/model/git_repo.py:31-35 | both commands start with `git clone ` and end in the same URL path, after the scheme and, in the read-write one, the user |
| GitRepo.GitImplementation.Init | ForgeGit/forgegit/model/git_repo.py:53-66 | `init` installs an empty, well-formed backend and sets the status `ready`; no flush or refresh happens and the references are untouched |
| GitRepo.GitImplementation.CloneFrom | ForgeGit/forgegit/model/git_repo.py:68-87 | the backend becomes the source's; the checkpoints are, in order: a flush with status `analyzing`, the refresh, a flush with `ready`; the final status is `ready`; the references and the stored records are left unconstrained, since the refresh rewrites them |
| GitRepo.ValidRefs | ForgeGit/forgegit/model/git_repo.py:123-135 | the list comprehension never stores more references than the backend lists; `ValidRefsExact` says which ones it stores |
| GitRepo.ValidRefsExact | ForgeGit/forgegit/model/git_repo.py:123-135 | a stored reference is exactly the name and commit id of a backend reference that is valid |
| GitRepo.GitImplementation.RefreshHeads | ForgeGit/forgegit/model/git_repo.py:123-136 | heads, branches and tags are replaced wholesale by the valid backend references, in backend order; the status is unchanged and one flush is recorded |
| GitRepo.WalkHistory | ForgeGit/forgegit/model/git_repo.py:99-105 | the stack walk ends with a graph holding exactly the commits reachable from the tips, each mapped to the set of its parents |
| GitRepo.GitImplementation.CommitGraph | ForgeGit/forgegit/model/git_repo.py:99-105 | the graph of `new_commits` is the history of the tips |
| GitGraph.HistoryIsUnique | ForgeGit/forgegit/model/git_repo.py:98-105 | the history of a set of tips is determined by the backend, so every commit is recorded once with one parent set |
| GitGraph.Unstored | ForgeGit/forgegit/model/git_repo.py:106-108 | the filter keeps exactly the ids of the order that are not stored |
| GitGraph.UnstoredKeepsOrder | ForgeGit/forgegit/model/git_repo.py:106-108 | filtering keeps a parents-first order parents-first and keeps it free of duplicates |
| GitGraph.NewCommitsOrder | ForgeGit/forgegit/model/git_repo.py:98-108 | given a sort that returns the graph's ids, parents first and without repeats: the result is the reachable commits not yet stored, without repeats, and every parent of a listed commit is stored or listed before it |
| GitRepo.GitImplementation.NewCommits | ForgeGit/forgegit/model/git_repo.py:98-108 | it fails exactly when a stored head does not resolve in the backend; otherwise the result is the sorted history of the heads without the stored commits |
| GitRepo.GitImplementation.CommitContext | ForgeGit/forgegit/model/git_repo.py:110-121 | `prev` is every stored commit among the parent ids; `next` is every stored commit that lists this one as a parent and is indexed in this repository |
| GitRepo.NavigationIsSymmetric | ForgeGit/forgegit/model/git_repo.py:110-121 | if `b` is a `next` of `a` then `a` is a `prev` of `b`; the converse holds when `b` is indexed in this repository |
| GitStore.Store.UpsertTree | ForgeGit/forgegit/model/git_repo.py:196-197 | `isnew` holds exactly when the id had no record; a bare record is created only then; the stored record is returned; commits and blobs are untouched |
| GitStore.Store.UpsertBlob | ForgeGit/forgegit/model/git_repo.py:202 | the same get-or-create contract for blob records |
| GitStore.Store.UpsertCommit | ForgeSVN/forgesvn/tests/model/test_repository.py:893-897 | the same get-or-create contract for commit records |
| GitStore.UpsertTreeTwice | ForgeSVN/forgesvn/tests/model/test_repository.py:864-868 | a second upsert of an id returns the record of the first, with `isnew` false; only that one id gains a record |
| GitStore.EntryMapLastWins | ForgeGit/forgegit/model/git_repo.py:193-194 | the `object_ids` mapping has exactly the tree's entry ids as keys, and an id is named by its last entry |
| GitStore.OfKind | ForgeGit/forgegit/model/git_repo.py:195-205 | `obj.trees` / `obj.blobs` hold exactly the entries of that kind |
| GitStore.SubmoduleRecordedOnly | ForgeGit/forgegit/model/git_repo.py:193-205 | a submodule (gitlink) entry is recorded in `object_ids` but is in neither `obj.trees` nor `obj.blobs`, so the refresh never follows it |
| GitIndex.RefreshTree | ForgeGit/forgegit/model/git_repo.py:192-205 | the tree's entries are recorded; every subtree and blob ends up stored; records that existed before are unchanged apart from this tree's entries; each record created is a new descendant with its context and last commit set |
| GitIndex.RefreshSubtrees | ForgeGit/forgegit/model/git_repo.py:195-200 | after the subtree loop every subtree is stored; new records are indexed descendants; old records are unchanged |
| GitIndex.IndexSubtree | ForgeGit/forgegit/model/git_repo.py:196-200 | one subtree is upserted and, only when new, given its context and last commit and indexed; the number of backend trees not yet stored never grows |
| GitIndex.RefreshBlobs | ForgeGit/forgegit/model/git_repo.py:201-205 | after the blob loop every blob is stored; only new blob records get a context and last commit; trees are untouched |
| GitIndex.RootStep | ForgeGit/forgegit/model/git_repo.py:155-159 | indexing a new root tree keeps old records, makes every other new tree a fresh descendant with its children stored, and keeps the store closed under children |
| GitIndex.IndexCommitTree | ForgeGit/forgegit/model/git_repo.py:155-159 | the commit's root tree is stored. If it was already stored, nothing changes. If it was new, it gets the commit as context and last commit, its subtrees are indexed, and the store stays closed under children |
| GitRepo.GitImplementation.RefreshCommit | ForgeGit/forgegit/model/git_repo.py:138-159 | it fails, with nothing changed, exactly when the commit does not resolve. Otherwise only this commit's record changes: it gets the tree id, both signatures with the timezone offset subtracted, the message (`''` when absent) and the parent ids. The tree is indexed when new; old tree and blob records are unchanged. A new root tree and every other new tree record have all their subtrees and blobs stored, and each of those other new records is a fresh descendant of the commit's tree |
| GitLog.LogFrom | ForgeGit/forgegit/model/git_repo.py:161-176 | the walk emits at most a non-negative `count` ids, and with `count` 0 it emits nothing and leaves the queue as it was |
| GitLog.LogResultFresh | ForgeGit/forgegit/model/git_repo.py:166-176 | every id `log` emits is a commit not seen before; the frontier is made of commits |
| GitLog.LogResultDistinct | ForgeGit/forgegit/model/git_repo.py:165-171 | no id is emitted twice |
| GitLog.LogResultShape | ForgeGit/forgegit/model/git_repo.py:161-176 | the page has distinct, fresh commits and at most `count` of them, and the frontier holds commits |
| GitLog.LogStopsOnlyWhenFull | ForgeGit/forgegit/model/git_repo.py:166 | with `count >= 0`, a non-empty frontier means exactly `count` ids were emitted |
| GitLog.LogSkipIsDrop | ForgeGit/forgegit/model/git_repo.py:170-174 | the page with skip `s` and count `n` is the page with skip 0 and count `s + n` without its first `s` ids, with the same frontier |
| GitLog.LogUnboundedIsExhaustive | ForgeGit/forgegit/model/git_repo.py:166-176 | with a negative `count` and no skip the queue is emptied, and every candidate and every parent of an emitted commit is emitted or was already seen |
| GitLog.LogChainExample | ForgeGit/forgegit/model/git_repo.py:161-176 | on the chain H, G, F, E, D, `log(H, 1, 2)` is `([G, F], [E])` |
| GitRepo.LogWalk | ForgeGit/forgegit/model/git_repo.py:163-176 | the FIFO loop with its `seen` set returns the page and the frontier the walk function gives |
| GitRepo.GitImplementation.Log | ForgeGit/forgegit/model/git_repo.py:161-176 | `log` fails exactly when the start id does not resolve; otherwise it returns the walk from that commit with the given skip and count |
| GitObjectId.PairValue | ForgeGit/forgegit/model/git_repo.py:212 | two hex digits give the byte `16 * e + o`; two whitespace characters are rejected, as `int` refuses them |
| GitObjectId.Evens | ForgeGit/forgegit/model/git_repo.py:208 | `oid[::2]`: half the length rounded up, character `i` from position `2i` |
| GitObjectId.Odds | ForgeGit/forgegit/model/git_repo.py:209 | `oid[1::2]`: half the length rounded down, character `i` from position `2i + 1` |
| GitObjectId.Decode | ForgeGit/forgegit/model/git_repo.py:207-213 | a successful decoding has one byte for each pair of digits, `len(oid) / 2` bytes; `DecodePairs` says which bytes |
| GitObjectId.ZipDecodePairs | ForgeGit/forgegit/model/git_repo.py:211-212 | `zip` decoding succeeds exactly when every pair parses, and then byte `i` is the value of pair `i` |
| GitObjectId.DecodePairs | ForgeGit/forgegit/model/git_repo.py:207-213 | decoding an id succeeds exactly when each of its `len / 2` leading pairs parses; the bytes are their values and an odd last digit is ignored |
| GitObjectId.DecodeObjectId | ForgeGit/forgegit/model/git_repo.py:207-213 | the loop that appends one byte per pair computes the decoding, failing at the first bad pair |
| GitObjectId.DecodeEncode | ForgeGit/forgegit/model/git_repo.py:207-213 | decoding the lower-case hex form of any binary id gives that id back |
| GitBlob.OpenedGitBlob.ReadAll | ForgeGit/forgegit/model/git_repo.py:221-222 | `read()` returns everything the stream still holds and exhausts it |
| GitBlob.NextChunk | ForgeGit/forgegit/model/git_repo.py:229-230 | a non-empty chunk consumes part of the stream |
| GitBlob.Refill | ForgeGit/forgegit/model/git_repo.py:228-231 | after the refill loop the buffer holds a newline or the stream is exhausted, and no character was lost or reordered |
| GitBlob.Replenish | ForgeGit/forgegit/model/git_repo.py:227-231 | the imperative refill loop computes that refill |
| GitBlob.LineIterator.Next | ForgeGit/forgegit/model/git_repo.py:224-235 | one resumption of the generator: `None` once the buffer and stream are empty, otherwise the piece up to and including the first newline, with buffer and stream moved on; the corrected iterator yields a last line without a newline whole |
| GitBlob.Step | ForgeGit/forgegit/model/git_repo.py:227-235 | one pass of the outer loop; with the last line flushed, every piece it yields is non-empty, while as written a buffer without a newline yields `''` (`StepContent` gives the piece and the rest in terms of the whole content) |
| GitBlob.StepContent | ForgeGit/forgegit/model/git_repo.py:227-235 | on chunked content, one pass stops exactly when the buffer and the stream hold nothing; otherwise it yields the content up to the first newline (or the whole tail when flushed) and keeps the rest, in order |
| GitBlob.Run | ForgeGit/forgegit/model/git_repo.py:224-235 | a consumer pulling `n` items gets at most `n`, and exactly `n` when the generator has not finished |
| GitBlob.RunIsPieces | ForgeGit/forgegit/model/git_repo.py:224-235 | however the content is cut into chunks, the iterator yields the same pieces |
| GitBlob.LinesConcat | ForgeGit/forgegit/model/git_repo.py:233-235 | the lines of a text put back together are the text |
| GitBlob.LinesAreLines | ForgeGit/forgegit/model/git_repo.py:233-234 | every line holds a newline at most at its end |
| GitBlob.LinesTerminated | ForgeGit/forgegit/model/git_repo.py:233-234 | every line but the last ends in a newline |
| GitBlob.LastLineTerminated | ForgeGit/forgegit/model/git_repo.py:233-234 | the last line ends in a newline exactly when the text does |
| GitBlob.TerminatedLines | ForgeGit/forgegit/model/git_repo.py:233-234 | in text that ends in a newline, each line ends in its only newline |
| GitBlob.PiecesTerminated | ForgeGit/forgegit/model/git_repo.py:224-235 | content that is empty or ends in a newline is yielded line by line, and then the generator finishes |
| GitBlob.IterationMatchesRead | ForgeGit/forgegit/model/git_repo.py:221-235 | for a blob that is empty or ends in a newline, iterating yields its lines, which concatenate to `read()` |
| GitBlob.PiecesTailNeverFinishes | ForgeGit/forgegit/model/git_repo.py:232-235 | as written, content whose last line lacks a newline never finishes |
| GitBlob.PiecesBlank | ForgeGit/forgegit/model/git_repo.py:232-235 | as written, a last line without a newline yields `''` on every pull |
| GitBlob.PiecesTail | ForgeGit/forgegit/model/git_repo.py:224-235 | as written, such content yields its complete lines and then only `''` |
| GitBlob.UnterminatedNeverFinishes | ForgeGit/forgegit/model/git_repo.py:224-235 | as written, a blob not ending in a newline yields its complete lines and then `''` forever |
| GitBlob.NoNewlineExample | ForgeGit/forgegit/model/git_repo.py:232-235 | the blob `ab` yields `''` on each of three pulls without finishing |
| GitBlob.PiecesFlushed | ForgeGit/forgegit/model/git_repo.py:224-235 | with the last line flushed, any content is yielded line by line and the generator finishes |
| GitBlob.FlushedIterationMatchesRead | ForgeGit/forgegit/model/git_repo.py:221-235 | with the last line flushed, every blob yields its lines, which concatenate to `read()` |
| Auth.Canonical | pyforge/pyforge/model/auth.py:54-57 | a canonical address, when there is one, has the length of the original, as only the case of the domain changes |
| Auth.CanonicalDefined | pyforge/pyforge/model/auth.py:54-57 | canonicalisation succeeds exactly when the address holds one `@` (the two-way unpacking raises otherwise) |
| Auth.CanonicalOf | pyforge/pyforge/model/auth.py:54-57 | `local@domain` becomes `local@` followed by the domain in lower case; the local part is kept |
| Auth.CanonicalIdempotent | pyforge/pyforge/model/auth.py:54-57 | canonicalising a canonical address gives it back |
| Auth.ClaimList | pyforge/pyforge/model/auth.py:128-139 | append-unless-present: the item is in the result, nothing else is added, the old list is a prefix, and the result is at most one longer |
| Auth.ClaimListProperties | pyforge/pyforge/model/auth.py:128-139 | claiming keeps a duplicate-free list duplicate-free, and claiming twice equals claiming once |
| Auth.Directory.UpsertEmail | pyforge/pyforge/model/auth.py:46-52 | it fails when canonicalisation fails; otherwise the record is keyed by the canonical address, an existing record is unchanged, and only a missing one is created |
| Auth.Directory.UpsertOpenId | pyforge/pyforge/model/auth.py:79-86 | an existing OpenId record is unchanged, keeping its display identifier; a missing one is created with the given identifier |
| Auth.User.ClaimOpenId | pyforge/pyforge/model/auth.py:128-132 | the record is upserted and claimed by this user, other records are unchanged, and the URL is appended to `open_ids` only when absent |
| Auth.User.ClaimAddress | pyforge/pyforge/model/auth.py:134-139 | it fails, with nothing changed, exactly when the address is malformed; otherwise the canonical record is upserted and claimed, other records are unchanged, and the canonical address is appended only when absent |
| Auth.EncodePassword | pyforge/pyforge/model/auth.py:24-31 | the result starts with `sha256`; with an 8-character salt, characters 6 to 13 are the salt |
| Auth.SaltOf | pyforge/pyforge/model/auth.py:259 | the slice `[6:14]`, cut short by the string's end |
| Auth.PasswordRoundTrip | pyforge/pyforge/model/auth.py:257-261 | the salt read back from an encoded password is the salt used, so re-encoding with it reproduces the stored value, for any hash |
| Auth.User.SetPasswordLocal | pyforge/pyforge/model/auth.py:227-228 | the stored password is the encoding of the password with the supplied salt; nothing else changes |
| Auth.User.ValidatePasswordLocal | pyforge/pyforge/model/auth.py:257-261 | false when no password is stored; true only when the stored value re-encodes from the password and its own salt |
| Auth.SetThenValidate | pyforge/pyforge/model/auth.py:227-261 | setting a password and then validating the same password succeeds, for any 8-character salt and any hash |
| Auth.User.Url | pyforge/pyforge/model/auth.py:119-120 | the URL is `/users/`, the user name and `/` |
| Auth.Special | pyforge/pyforge/model/auth.py:287-293 | a named role is special exactly when its name starts with `*`; a role without a name is special exactly when it has a user id |
| Auth.Display | pyforge/pyforge/model/auth.py:277-285 | the display fails exactly for a role without a name whose user id has no stored user; a named role is shown by its name; a user role is shown as `*user-` followed by the user's name when it has one; a role with neither is shown with the `**unknown name role: ` prefix |
| Auth.SpecialIsStarred | pyforge/pyforge/model/auth.py:277-293 | a role with a name or a user is special exactly when its display text starts with `*` |
| Auth.RoleIter | pyforge/pyforge/model/auth.py:299-308 | yields nothing when `self` was visited; otherwise `self` first. No role is yielded twice, none that was already visited, and every role after the first is stored. The visited set grows by exactly the roles yielded, and every stored child of every yielded role is visited, cycles included. Every role after the first is one of `self.roles` or a stored child of a role yielded before it, so each was reached from `self` |
| Auth.WalkChildren | pyforge/pyforge/model/auth.py:304-308 | the loop over `self.roles` skips ids with no stored role and leaves every stored child visited; each role it yields after `self` was reached from `self.roles` through stored sub-roles |
| Auth.VisitChild | pyforge/pyforge/model/auth.py:305-308 | one turn of that loop appends the walk of a stored sub-role and keeps the walk's state, including that each yielded role was reached from the roots |
| Markdown.Escape | Allura/allura/lib/markdown_extensions.py:394-400 | escaping never shortens the text |
| Markdown.EscapeIsPerCharacter | Allura/allura/lib/markdown_extensions.py:394-400 | the four chained replacements, `&` first, equal mapping each character to its entity, so no entity is escaped twice |
| Markdown.EscapeOne | Allura/allura/lib/markdown_extensions.py:396-399 | a single character is escaped to its entity: `&amp;`, `&lt;`, `&gt;`, `&quot;` or itself |
| Markdown.EscapeSafe | Allura/allura/lib/markdown_extensions.py:396-399 | escaped text holds no `<`, `>` or `"` |
| Markdown.UnescapeEscape | Allura/allura/lib/markdown_extensions.py:394-400 | escaping loses nothing: reading the entities back gives the text |
| Markdown.RewriteValue | Allura/allura/lib/markdown_extensions.py:466-487 | a missing value stays missing; a present value comes back without spaces and in a kept form |
| Markdown.RewriteKeeps | Allura/allura/lib/markdown_extensions.py:475-486 | a space-free value that contains `://` or starts with `/`, `.`, `mailto:` or `#` is unchanged |
| Markdown.RewriteRelative | Allura/allura/lib/markdown_extensions.py:487 | any other space-free value gains exactly the `../` prefix |
| Markdown.RewriteSpaces | Allura/allura/lib/markdown_extensions.py:470-474 | spaces become `%20` before the rule is chosen: a value is rewritten exactly as its space-encoded form is, and that form has no space |
| Markdown.RewriteIdempotent | Allura/allura/lib/markdown_extensions.py:470-487 | rewriting twice is rewriting once |
| Markdown.RewriteTag | Allura/allura/lib/markdown_extensions.py:466-487 | a tag without the attribute is unchanged; otherwise the attribute is rewritten. `rel` becomes `nofollow` exactly when an absolute value passes the nofollow test; all other attributes are unchanged |
| Markdown.Joined | Allura/allura/lib/markdown_extensions.py:548-559 | joining emits at most one line per input line, plus one for a run that was pending at the start |
| Markdown.JoinIncludes | Allura/allura/lib/markdown_extensions.py:548-559 | the loop with `buf` and `result` computes the joining function |
| Markdown.JoinRun | Allura/allura/lib/markdown_extensions.py:548-559 | a maximal run of include lines followed by another line is emitted as ONE line, the concatenation of the pending lines and the run, placed just before that line; joining then continues with an empty buffer |
| Markdown.JoinedText | Allura/allura/lib/markdown_extensions.py:548-559 | the emitted lines followed by the pending include run hold exactly the input text |
| Markdown.PendingIncludes | Allura/allura/lib/markdown_extensions.py:552-557 | the pending buffer holds only include lines, and is empty when the last line is not one |
| Markdown.JoinKeepsText | Allura/allura/lib/markdown_extensions.py:548-559 | when the last line is not an include line, joining keeps the text |
| Markdown.JoinWithoutIncludes | Allura/allura/lib/markdown_extensions.py:554-558 | lines without include macros pass through unchanged |
| Markdown.JoinOnlyIncludes | Allura/allura/lib/markdown_extensions.py:552-553 | a trailing run of include lines is never emitted |
| Markdown.ApplyAll | Allura/allura/lib/markdown_extensions.py:232-238 | no patterns leave a line unchanged and one pattern is applied once; `ApplyAllAppend` composes longer lists |
| Markdown.ApplyAllAppend | Allura/allura/lib/markdown_extensions.py:235-236 | applying one list of patterns then another is applying their concatenation |
| Markdown.IdentityPatterns | Allura/allura/lib/markdown_extensions.py:111-119 | patterns whose `repl` returns the match leave a line unchanged |
| Markdown.ReplaceLines | Allura/allura/lib/markdown_extensions.py:232-238 | as many lines come out as go in, and line `i` is every pattern applied to input line `i`, first pattern first |
| Markdown.LinkText | Allura/allura/lib/markdown_extensions.py:426-427 | only `a` elements with class token `alink` and non-empty text change, and their new text is `[` + text + `]` |
| Markdown.WrapArtifactLinks | Allura/allura/lib/markdown_extensions.py:424-428 | every element's text becomes its wrapped text, in place; tags and attributes are untouched |
| Markdown.SourceUrl | Allura/allura/lib/markdown_extensions.py:206-214 | the URL is the app URL, the revision (`HEAD` by default), `/tree/` and the file, then `#l` and the number only when a line was matched |
| Markdown.SourceRefRepl | Allura/allura/lib/markdown_extensions.py:203-219 | the text before and after the match is kept. Between them, without an app, is the reference as written; with one, `[ref](url)` with the source URL |
| Markdown.AddCustomClass | Allura/allura/lib/markdown_extensions.py:442-443 | the text, unchanged, between `<div class="markdown_content">` and `</div>` |
| TicketForm.ParseOption | ForgeTracker/forgetracker/widgets/ticket_form.py:136-140 | an option is selected exactly when its token starts with `*`; then exactly one `*` is removed, otherwise the token is the label |
| TicketForm.ParseOptions | ForgeTracker/forgetracker/widgets/ticket_form.py:135-140 | one option per token, in order |
| TicketForm.SelectWidget | ForgeTracker/forgetracker/widgets/ticket_form.py:133-141 | a single select with the field's label and name, one option per whitespace-separated token, selected exactly when its token starts with `*`; option i is the parse of token i, whose label is the token with exactly one leading `*` removed when selected and the token itself otherwise |
| TicketForm.SelectRoundTrip | ForgeTracker/forgetracker/widgets/ticket_form.py:133-141 | writing writable options as a space-separated string and parsing it with `split()` gives them back |
| TicketForm.MilestoneOptions | ForgeTracker/forgetracker/widgets/ticket_form.py:143-149 | one option per milestone, in order, labelled and valued by its name, with its completion flag |
| TicketForm.MilestoneOptionsDistinct | ForgeTracker/forgetracker/widgets/ticket_form.py:143-149 | the options are distinct exactly when the milestones are, so milestones with distinct names give distinct options |
| TicketForm.Make | ForgeTracker/forgetracker/widgets/ticket_form.py:156-179 | the widget keeps the field's label and name, and it is a select, milestone select, checkbox, number field or user combo exactly when the type is `select`, `milestone`, `boolean`, `number` or `user`; a `select` field gets `_select`'s widget, and a `milestone` field gets one option per milestone |
| TicketForm.MakeDefault | ForgeTracker/forgetracker/widgets/ticket_form.py:165-179 | a missing or unknown type gives a text field |
| TicketForm.ShownOf | ForgeTracker/forgetracker/widgets/ticket_form.py:184-186 | the filter keeps no more options than it is given, and each one it keeps is one of them and is incomplete or holds the current value |
| TicketForm.ShownOfKeeps | ForgeTracker/forgetracker/widgets/ticket_form.py:185 | every incomplete option and every option whose value is the current value is kept |
| TicketForm.ShownOfIdempotent | ForgeTracker/forgetracker/widgets/ticket_form.py:184-186 | filtering twice with the same value is filtering once |
| TicketForm.ShownOfDistinct | ForgeTracker/forgetracker/widgets/ticket_form.py:184-186 | filtering keeps distinct options distinct |
| TicketForm.MilestoneField.Display | ForgeTracker/forgetracker/widgets/ticket_form.py:182-187 | the reverse walk with `index` and `del` leaves `options`, in place, as exactly the original options in their order that are incomplete or hold the current value |
| TicketForm.CustomWidgets | ForgeTracker/forgetracker/widgets/ticket_form.py:22-26 | no widget is named `_milestone` |
| TicketForm.CustomWidgetsComplete | ForgeTracker/forgetracker/widgets/ticket_form.py:24-26 | every custom field not named `_milestone` has its widget in the list |
| TicketForm.TicketCustomFields.Fields | ForgeTracker/forgetracker/widgets/ticket_form.py:19-27 | on first access the list is built from the custom fields and cached; afterwards the cached list is returned unchanged |
| TicketForm.FieldsTwice | ForgeTracker/forgetracker/widgets/ticket_form.py:19-27 | two reads give the same list, whatever the custom fields are at the second read |
| TicketForm.FirstMilestone | ForgeTracker/forgetracker/widgets/ticket_form.py:95-98 | the position found is a `_milestone` field with none before it; none is found only when no field has that name |
| TicketForm.FormFields | ForgeTracker/forgetracker/widgets/ticket_form.py:94-98 | the standard fields, followed by the widget of the first `_milestone` custom field when there is one |

## Left out

- GitPython (`git.Repo`, `rev_parse`, `Repo.init`, `Repo.clone_from`, `Object.new_from_sha`, `data_stream`) is foreign code. The backend is an immutable snapshot of maps, and a blob's data stream is a sequence of chunks.
- The file-system and hook work (`_setup_paths`, `rmtree`, `_setup_special_files`, `_setup_receive_hook`) has no logical content here. `Init` and `CloneFrom` record only the backend, the status and the flush/refresh checkpoints.
- GitRepo.GitImplementation.CloneFrom: `Repository.refresh` is not part of this model. `CloneFrom` records only that it ran, between the two flushes; what it does to the heads, branches, tags and stored records is not modelled, so the contract leaves those unconstrained.
- The Mongo queries and session flushes are replaced by the in-memory store. A flush is a checkpoint event carrying the status it saved.
- `commit` (lines 89-96) and `open_blob` (lines 178-180) are lookups into Mongo and GitPython, and are left out.
- `topological_sort` is not part of this model. `NewCommits` takes the sort as a parameter. `GitGraph.NewCommitsOrder` assumes that the sort returns the graph's ids, parents first, without repeats.
- The bodies of `Tree.upsert`, `Blob.upsert` and `Commit.upsert` are not part of this model. `GitStore.Store` gives them the get-or-create contract their tests pin.
- `set_context`/`set_last_commit` are field assignments on the new record. `tree.commit`, used at lines 199 and 205, is not part of this model; it is taken to be the commit being refreshed.
- Timestamps are integers. `datetime.fromtimestamp` is not modelled; only the subtraction of the timezone offset is.
- GitRepo.GitImplementation.RefreshCommit: a commit that does not resolve makes GitPython raise. The model returns `false` with nothing changed, instead of an exception.
- GitRepo.GitImplementation.NewCommits, GitRepo.GitImplementation.Log: likewise, an id that does not resolve gives `None` instead of an exception.
- The maintenance of a commit's `repositories` set is not shown in the source. The model only reads it, in `CommitContext`.
- The backend is assumed well-formed: every parent, commit tree and subtree resolves. This is an invariant of any real repository, not a demand of the source.
- Auth.CanonicalOf: the domain is lower-cased in ASCII only, as Python 2's `str.lower()` does. A `unicode` address would have every letter of its domain case-folded. `Text.LowerChar` does not model that.
- Text.Lower: only `A`-`Z` are lower-cased. Non-ASCII letters are left as they are, as for a byte string.
- Text.Split: whitespace is the six ASCII characters of a byte string. The Unicode whitespace that `unicode.split()` also splits on (for example U+00A0, U+2003 and `\x1c`-`\x1f`) is not modelled.
- GitRepo.GitImplementation.CommitContext: the `ci.set_context(self._repo)` on the returned `prev` and `next` commits (lines 119-120) is not modelled. It only sets a transient attribute on the query results.
- GitObjectId.PairValue: the model accepts what `int(e + o, 16)` accepts in two characters that `chr` can then take: two hex digits, one digit with surrounding whitespace, or a sign before one digit (after `-`, only `0`). Its contract states only the two-digit and the all-whitespace cases, the only ones a hex object id can produce.
- `_OpenedGitBlob.close` does nothing, and `ChunkSize` only bounds each chunk's length. An empty chunk stands for the end of the stream.
- The generator of `__iter__` is a `LineIterator` object with a one-step `Next`. A consumer that pulls `n` items is `GitBlob.Run` with `n` as its bound, because the generator as written can run forever.
- SHA-256 and base64 are one uninterpreted digest function, passed as a parameter.
- The random salt of `encode_password` is a caller-supplied 8-character string.
- The LDAP paths (`_register_ldap`, `_set_password_ldap`, `_validate_password_ldap`) and the `auth.method` switch are network and configuration. Only the local path is modelled.
- `send_verification_link`, `register`, `claimed_by_user`, `address_object`, `openid_object`, `private_project`, `my_projects`, `anonymous` and `script_name` are database or network lookups.
- `User.role_iter` and `project_role` depend on the request's current project. Only `ProjectRole.role_iter` is modelled.
- Role records and users are looked up in maps keyed by id. `ProjectRole.display` gives `None` where the source would fail on a user id with no stored user.
- Python's unordered `set` of visited ids is a Dafny `set`, and the generator of `role_iter` is a method returning the whole sequence it yields.
- The regular expressions of the Markdown extensions are not modelled. The include-line pattern is a predicate parameter, each preprocessor pattern is a substitution function, and a `source:` match is given as its groups.
- BeautifulSoup parsing, the html5lib sanitizer, `urljoin` in `_rewrite_abs`, `MarkAsSafe`, emoji, macros, the `htmlStash`, and the extension wiring are library code.
- `is_nofollow_url` is a predicate parameter of `RewriteTag`.
- The `Shortlink` lookups of `TracRef1`, `TracRef2` and `ForgeLinkPattern` are database work. `PlainTextPreprocessor.run` depends on a regular expression and the `htmlStash`. Only its `_escape` is modelled.
- Markdown.JoinIncludes: a run of include lines at the very end of the input is dropped. The model keeps that behaviour, and `JoinOnlyIncludes` and `JoinedText` state it. It is not listed as a defect because Python-Markdown appends two newlines to the source before the preprocessors run, so the last line they see is empty, and `JoinKeepsText` shows that no text is lost then.
- The tree of `ForgeLinkTreeProcessor.run` is the list of its elements in document order. `getiterator('a')` is the tag test inside `LinkText`.
- Widget rendering, templates, validators, `resources`, `display_field_by_name` and `_add_current_value_to_user_field` produce HTML or read the user database.
- `TicketForm.fields` (lines 104-108) only appends the custom-field compound widget.
- The standard fields of `GenericTicketForm.fields` are a parameter of `FormFields`. The tracker's custom fields (`c.app.globals.custom_fields`) are a parameter of `Fields` and `FormFields`.
- `list.index` in `MilestoneField.display` finds an option by equality. The model takes the options to be distinct, as `_milestone` builds a new `ew.Option` for each milestone.
- Concurrency (simultaneous refreshes, concurrent upserts) is out of scope for a sequential model.

## Findings

| source | as written | input that shows it | evidently intended | confidence | as-written member | corrected member |
|---|---|---|---|---|---|---|
| ForgeGit/forgegit/model/git_repo.py:232-235 | when the buffer holds no newline and the stream is exhausted, `find` gives -1, so `buffer[:0]` (`''`) is yielded and the buffer is kept; the generator never finishes | a blob whose content is `ab` (no trailing newline) yields `''`, `''`, `''`, … | yield the last, unterminated line whole and then stop, so that the pieces concatenate to `read()` | not executed | GitBlob.UnterminatedNeverFinishes, GitBlob.NoNewlineExample | GitBlob.FlushedIterationMatchesRead |

The corrected generator is `GitBlob.Step` with `flushTail` set to true. `GitBlob.LineIterator` constructed with `flushTail` true is the corrected iterator object.
