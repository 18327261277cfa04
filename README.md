# git_branch_delete_tool, modelled in Dafny

`git_branch_delete_tool` is an interactive pruner of local git branches. It
lists the local branches, except `master`, sorted by the time of their tip
commit. For each branch it asks one key: `k` keeps the branch, `d` deletes it
and prints how to restore it, `q` quits, `u` (not implemented) panics, and `?`
shows help and asks again. The checked-out branch is skipped with a message.
Any error ends the run with status 1.

This project models the decision core of `src/main.rs` over abstract inputs,
and proves what the core promises:

- `cli.dfy` (module `Cli`): the actions, the error kinds, the result type,
  and the decoding of one typed character (`CliAction::try_from`).
- `terminal.dfy` (module `Terminal`): the raw-mode terminal as a `Console`
  object. Standard input is a finite sequence of read results: a byte, the
  end of the stream, or a failed read. Standard output is the sequence of
  writes, each a `Line` value naming what was written and the data it shows.
- `branches.dfy` (module `Branches`): `get_branches`. The repository's
  enumeration is a parameter: a list of entries that were either read or
  failed. Each read entry gets its time shifted by the UTC offset, `master`
  is dropped, and the first failed entry aborts. The survivors are copied into
  an array and sorted in place by time. The sort is a selection sort, and
  only sortedness and permutation are promised, just as `sort_unstable_by_key`
  promises nothing about ties.
- `prompt.dfy` (module `Prompt`): `handle_user_input`. `Resolve` states the
  recursive retry as a function of the remaining input. `HandleUserInput`
  runs it as a loop over the `Console` and is proved equal to `Resolve`. The
  lemmas say which input is consumed, what reply results, and how prompts,
  echoes and help blocks follow the cycles.
- `driver.dfy` (module `Driver`): the branch loop of `main` and its exit
  status. `Repository` holds the existing branch names, the names whose
  deletion the repository refuses, and a log of delete calls. `Step` is one
  pass of the loop and `Walk` the whole loop. `Run` is the program itself
  over a `Console` and a `Repository`, proved equal to `Review`. The lemmas
  about `Walk` cover early termination, exit status, which branches are
  deleted, and what input and output the run touches.

Two points of the code are easy to misread:
- the sort is `sort_unstable_by_key`, so branches with equal times have no
  promised order;
- the help block (`src/main.rs:109`) announces `u` as restoring the last
  deleted branch, but the code panics through `todo!()` instead.

## Model

| member | source | states |
|---|---|---|
| `Cli.TryFrom` | src/main.rs:155-167 | a character decodes to an action exactly when it is one of `k`, `d`, `q`, `u`; the action is the one that key selects; any other character, `?` included, is an `InvalidInput` error carrying that same character |
| `Cli.TryFromKey` | src/main.rs:158-166 | decoding inverts the key table: each action's key decodes back to that action |
| `Terminal.Console.Next` | src/main.rs:98-99 | one read delivers the first pending read result and removes it from standard input; nothing is written |
| `Terminal.Console.Write` | src/main.rs:90-97 | a write appends to standard output and reads nothing |
| `Branches.ToBranch` | src/main.rs:58-71 | a reviewed branch keeps the commit id, name and head flag the repository reported; its time is the adjusted time that `Branches.AdjustedOrder` describes |
| `Branches.AdjustedOrder` | src/main.rs:62-64 | for commits in the same time zone, adjusted times are ordered as their seconds; at the same instant, each minute of UTC offset adds sixty seconds |
| `Branches.Collect` | src/main.rs:56-80 | the enumeration yields branches exactly when every entry was read; otherwise the error is that of the first unreadable entry; on success no branch is named `master`, and every other read branch occurs exactly as often as it was enumerated |
| `Branches.EarliestFrom` | src/main.rs:81 | finds a position in the unsorted part whose time is no later than any other there |
| `Branches.Swap` | src/main.rs:81 | exchanges two elements, leaves every other element as it was, and keeps the multiset of branches |
| `Branches.SortByTime` | src/main.rs:81 | sorts the array in place into non-decreasing time order, as a permutation of its former contents |
| `Branches.GetBranches` | src/main.rs:55-83 | a failed enumeration is passed on; otherwise the result is an error exactly when some entry is unreadable, and then it is the first one's error; on success the list is sorted by adjusted time (seconds plus sixty per minute of offset, `src/main.rs:62-64`) and is a permutation of the non-master branches read |
| `Prompt.Decode` | src/main.rs:98-115 | a read result that settles the question never leaves it open; a failed read is an `Io` error; a byte is an action exactly when its character is one of the four keys, and then the action whose key it is, and otherwise an `InvalidInput` error carrying that character |
| `Prompt.Resolve` | src/main.rs:85-117 | one question consumes no more read results than there are |
| `Prompt.ResolveSettles` | src/main.rs:98-116 | the reply is the decoding of the first read result that is neither the end of the stream nor `?`, and exactly the results up to and including it are consumed; a failed read gives an `Io` error; when every result is a retry, all of them are consumed and the question is left open |
| `Prompt.ResolvePrompts` | src/main.rs:90-96 | the first write is the prompt for the branch, which is written once per read result consumed, plus once more when the input ran out |
| `Prompt.ResolveOnlyPrompts` | src/main.rs:85-100 | every prompt written while asking about a branch is that branch's prompt, with its name, the first ten characters of its id and its time |
| `Prompt.ResolveEchoes` | src/main.rs:102-103 | every byte read is echoed, as the character with the same code point, in the order read, and nothing else is echoed |
| `Prompt.ResolveHelps` | src/main.rs:105-113 | the help block is written exactly once for every `?` read |
| `Prompt.WrittenPrompt` | src/main.rs:90-96 | one cycle writes one prompt, first, and no other prompt |
| `Prompt.WrittenHelp` | src/main.rs:105-112 | one cycle writes the help block once if it read `?`, and otherwise not |
| `Prompt.WrittenEchoes` | src/main.rs:102-103 | one cycle echoes the byte it read, if any, and nothing else |
| `Prompt.Ask` | src/main.rs:90-112 | one cycle writes the prompt; unless the input has run out, it then takes one read result and writes its echo and, for `?`, the help block |
| `Prompt.HandleUserInput` | src/main.rs:85-117 | the loop over the console returns the reply of `Resolve`, consumes exactly the read results it consumes, and appends exactly what it writes |
| `Driver.Repository.DeleteBranch` | src/main.rs:127-131 | every call is logged; it succeeds exactly when the branch exists and the repository accepts deleting it; then the branch is gone, otherwise nothing changes and the error is a repository error |
| `Driver.ExitStatus` | src/main.rs:45-50 | the process succeeds exactly when the run completed; an error exits with status 1 |
| `Driver.Step` | src/main.rs:20-36 | exactly the checked-out branch is skipped without a question, and it reads no input; any other branch's verdict is the reply to the question asked about it, and the pass consumes exactly that question's input; a reply that stops the loop ends the run as that reply says; a continuing reply stops the loop only when a delete call is refused, which ends the run with a repository error; after a Delete reply the loop goes on exactly when the repository accepts the deletion; delete is called only on a Delete reply; a branch disappears only after an accepted delete call |
| `Driver.StepStreams` | src/main.rs:20-36 | one pass consumes input only from the front and only appends output; the only prompt it writes is for its own branch, and never for the checked-out one |
| `Driver.StepWrites` | src/main.rs:20-34 | the checked-out branch gets only the skip message and reads nothing; Keep writes nothing beyond the question, and neither does any pass that stops the run (Quit, Undo, a failed question, a refused deletion); an accepted deletion writes the question and then the restore hint with the branch name and its full id |
| `Driver.Walk` | src/main.rs:19-37 | the loop reaches at least the first branch of a non-empty list and gives at most one verdict per branch; `Driver.WalkVerdicts`, `Driver.WalkExit`, `Driver.WalkDeletes`, `Driver.WalkRepository`, `Driver.WalkInputExact` and `Driver.WalkOutput` state what it does |
| `Driver.Review` | src/main.rs:16-18 | with no branch to review, the run writes one message, succeeds, and changes nothing else |
| `Driver.WalkVerdicts` | src/main.rs:19-23 | the run reaches a prefix of the list with one verdict per branch; exactly the checked-out branch is skipped; every verdict before the last lets the run go on |
| `Driver.WalkExit` | src/main.rs:23-37 | a stopping reply ends the run as it says (Quit with success, Undo with a panic, an error with that error); when every reply lets the run go on, success means the whole list was reviewed, and any other end is a refused deletion of the last branch reached; a run that stops at a Delete verdict before the end of the list ended on a refused deletion |
| `Driver.WalkRefusal` | src/main.rs:27-28 | a refused delete call ends the run at that branch: the call is logged, nothing is removed, and the run ends with a repository error and status 1 |
| `Driver.WalkQuit` | src/main.rs:24 | Quit is always the last verdict, and the run then ends with status 0 |
| `Driver.WalkFailed` | src/main.rs:23 | an invalid key or failed read is always the last verdict, and the run then ends with that error and status 1 |
| `Driver.WalkIgnoresRest` | src/main.rs:19-28 | once the run stops at a branch, the branches after it play no part: any list that agrees up to that branch gives the same run |
| `Driver.WalkDeletes` | src/main.rs:27-28 | delete is called exactly for the branches whose reply was Delete, once each, in list order |
| `Driver.WalkSparesHead` | src/main.rs:20-28 | the run only adds delete calls, and each one names a branch it reached that is not checked out |
| `Driver.WalkRepository` | src/main.rs:27-28 | only branches named in a delete call disappear, and, unless the run ended on a refused deletion, all of them are gone |
| `Driver.WalkInput` | src/main.rs:19-37 | the run consumes standard input only from the front |
| `Driver.InputAfterSuffix` | src/main.rs:19-23 | the questions about a list of branches only consume input from the front |
| `Driver.WalkInputExact` | src/main.rs:19-23 | the input the run leaves is exactly what the questions about the branches it reached leave, asked in order, with nothing read for the checked-out branch |
| `Driver.WalkOutput` | src/main.rs:19-37 | the run only appends to standard output, and every prompt it writes is for a branch it reached that is not checked out |
| `Driver.ReviewBranch` | src/main.rs:20-36 | one pass of the loop over the console and the repository does exactly what `Step` says |
| `Driver.Run` | src/main.rs:14-37 | an enumeration error ends the run with that error, and so does an unreadable entry (the first one's error); neither touches the console or the repository; otherwise the branches reviewed are the sorted non-master branches, and the exit, standard input and output, existing branches and delete calls are those of `Review` |

## Left out

- Opening the repository, enabling raw mode and enumerating branches (`src/main.rs:9-14`, 57) are library calls. Their failures are the error of the `listing` parameter of `Driver.Run`. The entries they yield are its value.
- Disabling raw mode (`src/main.rs:43`) is terminal state with no logic.
- `git2::Branch::delete` is a library call. `Driver.Repository.DeleteBranch` stands for it. It fails when the name no longer exists or is in the repository's refused set, and no other reason for failure is modelled.
- The text of every write is not modelled: its wording, the `\r` line endings, flushing, and how `NaiveDateTime` and `Oid` print. Each write is a `Line` value carrying the data it shows. A commit id is a string of at least ten characters, and a time is an integer number of seconds.
- A failed write or flush of standard output would end the run with an `Io` error. The model treats every write as succeeding.
- `NaiveDateTime::from_timestamp` panics on times out of its range. That is library numerics and is left out.
- Error payloads and their rendering on standard error (`thiserror`, `src/main.rs:133-145`) are left out. `process::exit` is replaced by `Driver.ExitStatus` of the returned `Exit`.
- `Undo` is `todo!()`, a panic. The model ends the run with `Panicked` and status 101 (Rust's panic status), without the panic message. Restoring a branch, which the help text announces, does not exist in the code.
- On the end of standard input the program asks again by calling itself (`src/main.rs:100`). Rust does not promise to turn that call into a loop, so the program either asks forever or overflows its stack. The model's input is finite: when it runs out mid-question the reply is `InputExhausted` and the run ends `OutOfInput`. This is a modelling artifact, and `Driver.ExitStatus` is not defined for it.
- Prompt.Resolve: its own contract only bounds the input consumed. What it computes is stated by the `Resolve…` lemmas, so that its uses stay cheap to verify.
- Branches.SortByTime: the order of branches with equal times is not promised, because `sort_unstable_by_key` does not promise it either.
