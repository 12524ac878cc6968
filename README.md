# Redshift provisioning script: config write-back and mode dispatch

This project models the logic of `redshift.py`, a script that provisions an
AWS Redshift cluster and its IAM role. The cloud calls themselves have no
logic of their own; what the script decides is modelled:

- **Config write-back** (`write_in_config`). The script reads `dwh.cfg` with
  `readlines()`, truncates it, and writes one piece per line. A line that
  contains `ARN` anywhere is rewritten with the role ARN. Otherwise, a line
  that contains `HOST` is rewritten with the cluster endpoint. Every other
  line is written back unchanged. The rewrite is Python's
  `line.replace(line.split("=")[-1], value + "\n")`. That call replaces
  *every* occurrence of the text after the last `=`; it is not an anchored
  edit of the line's tail. Module `PyStr` gives `in`, `split` and `replace`
  their Python meaning, including `replace` with an empty pattern. Module
  `Lines` models `readlines()` and the concatenation of the `write()` calls.
  Module `ConfigSync` models the loop itself as the method `WriteInConfig`,
  proved against the specification function `WriteBack`.
- **Status summary filter** (`prettyRedshiftProps`). Module `ClusterProps`
  models the list comprehension that keeps only the eight attributes of the
  cluster description in `keysToShow`.
- **Mode dispatch** (the `__main__` block). Module `Dispatch` models it as a
  function of the `purpose` argument, the configured settings, the provider's
  answers and the configuration file. Its result is the list of calls made,
  how the process ends, and the file left behind.

The cloud provider is a parameter. The type `Provider` records what each boto3
call whose failure the script does not catch would answer: the creation of the
two clients, attaching the policy, fetching the role's ARN, both
`describe_clusters` calls of the status check, the endpoint lookup and the
cleanup. `None` or `false` means that call raises. The two `describe_clusters`
calls are answered independently (`clusterProps` and `clusterStatus`), so the
status shown in the summary and the status tested may differ, as they can when
the cluster changes between the calls. An uncaught exception ends the process
with status 1, as Python does.

What the code does on three kinds of matching line:

- *A newline-terminated line* (every line `readlines()` yields except perhaps
  the last). The pattern ends in the line's only newline, so it matches once,
  at the end. The line keeps its text through the last `=` and gets the value
  and a newline (`TerminatedLineRewrite`).
- *A line with no `=`.* The whole line is the pattern, so it becomes the value
  and a newline (`LineWithoutEqualsRewrite`).
- *A last line without a newline.* Here the global replace shows. If the line
  ends in `=`, the value segment is empty and Python inserts the value at every
  position (`EmptyValueRewrite`). Otherwise the text before the last `=` has
  every occurrence of the old value replaced, and the `=`, the value and a
  newline follow (`ValueSegmentRewrite`). If the old value does not occur in
  the key, that is the key followed by the value and a newline
  (`UnrepeatedValueRewrite`); if it does, that occurrence is replaced too
  (`FinalLineQuirk`; see Findings).

The usage text of the `purpose` argument names `delete`, but the check at
`redshift.py:203` accepts `clean`. The model follows the check. That usage
text is also not valid Python as written (see "Left out"); the model treats
the script as if it compiled. The docstring
of `write_in_config` (`redshift.py:71-72`) says it writes the updated ARN and
endpoint to the config; the evident intent is to replace only the value after
the last `=`. The code does that on newline-terminated lines, and on a last
line whose old value does not occur earlier in it (`UnrepeatedValueRewrite`);
the model follows the code.

## Model

| member | source | states |
|---|---|---|
| `PyStr.Contains` | redshift.py:83-85 | Python's `sub in s`, a left-to-right scan for `sub`; its meaning is stated by `ContainsIff` |
| `PyStr.ContainsIff` | redshift.py:83-85 | `sub in s` holds iff `sub` occurs at some index of `s` (case-sensitive substring test) |
| `PyStr.Split` | redshift.py:84 | `s.split(sep)` is never empty, no piece contains `sep`, and joining the pieces with `sep` gives back `s` |
| `PyStr.SplitUnique` | redshift.py:84 | any separator-free pieces that join back to `s` are exactly `Split(s, sep)`: the split is determined by its round trip |
| `PyStr.LastSegment` | redshift.py:84 | Python's `s.split(sep)[-1]`; `LastSegmentIsTail` states which suffix it is |
| `PyStr.LastSegmentIsTail` | redshift.py:84 | `split(sep)[-1]` is the suffix after the last `sep`, contains no `sep`, and is all of `s` iff `sep` does not occur |
| `PyStr.ReplaceAll` | redshift.py:84 | Python's `s.replace(pat, rep)`: leftmost non-overlapping matches, an empty pattern matching at every position; `ReplaceIsJoinOfSplit` characterizes it for every non-empty pattern, `InsertEverywhereShape` and `InsertEverywhereAt` for the empty one |
| `PyStr.InsertEverywhere` | redshift.py:84 | Python's `s.replace("", rep)`; `InsertEverywhereShape` gives its length and `InsertEverywhereAt` every block |
| `PyStr.ReplaceAbsent` | redshift.py:84 | `s.replace(pat, rep)` with a non-empty pattern that does not occur in `s` returns `s` unchanged |
| `PyStr.InsertEverywhereShape` | redshift.py:84 | `s.replace("", rep)` has length `|s| + (|s|+1)*|rep|` and starts and ends with `rep` |
| `PyStr.InsertEverywhereAt` | redshift.py:84 | in `s.replace("", rep)`, the block starting at `i*(|rep|+1)` is `rep`, followed by `s[i]` for every `i < |s|`: the result is `rep`, `s[0]`, `rep`, `s[1]`, ..., `rep` |
| `PyStr.ReplaceWhole` | redshift.py:84 | replacing a non-empty string inside itself yields exactly the replacement |
| `PyStr.ReplaceAnchoredSuffix` | redshift.py:84 | if the pattern is a suffix of `s` ending in a character found nowhere else in `s`, `replace` edits only that suffix |
| `PyStr.ReplaceAcross` | redshift.py:84 | a character absent from the pattern splits the replacement: `(a + c + b).replace(pat, rep)` is `a.replace(pat, rep) + c + b.replace(pat, rep)` |
| `PyStr.AbsentFirstChar` | redshift.py:83-85 | a pattern whose first character is absent from `s` is not a substring of `s` |
| `PyStr.ContainsInfix` | redshift.py:83-85 | a substring of one part of a text is a substring of the whole text |
| `PyStr.ContainsPrefix` | redshift.py:83-85 | a substring of a prefix is a substring of the whole text |
| `PyStr.SplitOn` | redshift.py:84 | Python's `s.split(pat)` for a non-empty pattern, the reference definition `replace` is checked against: it always has at least one piece; `SplitOnJoin`, `SplitOnPieces` and `SplitOnLeftmost` state what the pieces are |
| `PyStr.SplitOnJoin` | redshift.py:84 | `pat.join(s.split(pat)) == s`: the pieces joined with the pattern give back the string |
| `PyStr.SplitOnPieces` | redshift.py:84 | no piece of `s.split(pat)` contains `pat` |
| `PyStr.SplitOnLeftmost` | redshift.py:84 | the cuts are the leftmost ones: no occurrence of the pattern starts inside a piece that another piece follows, so the first occurrence in `s` is the first cut |
| `PyStr.SplitOnChar` | redshift.py:84 | for a one-character separator the general split and `Split` agree |
| `PyStr.ReplaceIsJoinOfSplit` | redshift.py:84 | for every string and non-empty pattern, `s.replace(pat, rep) == rep.join(s.split(pat))` |
| `Lines.ReadLines` | redshift.py:79 | Python's `readlines()`: the file cut after each newline; `ReadLinesShape`, `ReadLinesLine` and `ReadLinesLast` state the shape of the lines and `ReadLinesConcat` that they rebuild the file |
| `Lines.Concat` | redshift.py:81-88 | the file left by the `write` calls after truncation: `"".join` of their arguments in order (`PyStr.Join` with empty glue); `ReadLinesConcat` shows it inverts `ReadLines` |
| `Lines.ReadLinesShape` | redshift.py:79 | `readlines()` yields non-empty lines with a newline at most at their end; all but the last are newline-terminated; it yields none iff the file is empty; the last line is terminated iff the file ends in a newline |
| `Lines.ReadLinesLine` | redshift.py:79 | each line yielded has a newline at most at its end, and at its end when another line follows |
| `Lines.ReadLinesLast` | redshift.py:79 | there is no line iff the file is empty, and the last line ends in a newline iff the file does |
| `Lines.ReadLinesConcat` | redshift.py:79-88 | writing back the lines read reproduces the file byte for byte |
| `Lines.LineInConcat` | redshift.py:79-88 | a substring of one line is a substring of the file |
| `ConfigSync.ValueSegment` | redshift.py:84 | `line.split("=")[-1]`; `KeyPart` states that it is what follows the last `=` |
| `ConfigSync.KeyPart` | redshift.py:84 | the text through the last `=` followed by the value segment is the line; it is empty iff the line has no `=`, otherwise ends in `=`, and no `=` follows it |
| `ConfigSync.RewriteLine` | redshift.py:83-88 | the piece written for one line, as written; `UnmatchedLineUnchanged`, `ArnTakesPrecedence`, `TerminatedLineRewrite`, `LineWithoutEqualsRewrite`, `EmptyValueRewrite`, `ValueSegmentRewrite`, `UnrepeatedValueRewrite` and `AnchoredAgreesOnTerminatedLines` state what it produces |
| `ConfigSync.WriteBack` | redshift.py:79-88 | the file after the write-back; `WriteInConfig` computes it, `PlainFileUnchanged` and `AnchoredWriteBack` state what it holds |
| `ConfigSync.WriteInConfig` | redshift.py:70-88 | the loop writes exactly one piece per line read, in order, each the rewrite of its line, and the file ends up as their concatenation, `WriteBack` of the old content |
| `ConfigSync.UnmatchedLineUnchanged` | redshift.py:87-88 | a line containing neither `ARN` nor `HOST` is written back unchanged |
| `ConfigSync.ArnTakesPrecedence` | redshift.py:83-86 | a line containing `ARN` gets the same result whatever the endpoint, even if it also contains `HOST` |
| `ConfigSync.TerminatedLineRewrite` | redshift.py:83-86 | a newline-terminated matching line becomes its text through the last `=`, then the ARN (if it contains `ARN`) or else the endpoint, then a newline |
| `ConfigSync.ReplaceTerminatedValue` | redshift.py:84 | in a newline-terminated line, replacing the value segment edits only the tail after the last `=` |
| `ConfigSync.ReplaceAfterKey` | redshift.py:84 | for a newline-terminated line split into a part that is empty or ends in `=` and the rest, replacing the rest yields the first part followed by the replacement |
| `ConfigSync.ValueSegmentRewrite` | redshift.py:83-86 | on any matching line with a `=` and a non-empty value segment, terminated or not, the result is the text before the last `=` with every occurrence of the old value replaced, then `=`, the value and a newline |
| `ConfigSync.ReplaceAfterEquals` | redshift.py:84 | for a line split at its last `=` into a key and a non-empty value without `=`, replacing the value in the line is replacing it in the text before the `=`, keeping the `=`, and turning the value itself into the replacement |
| `ConfigSync.UnrepeatedValueRewrite` | redshift.py:83-86 | a matching line with a `=`, a non-empty value segment that does not occur in the text through the last `=`, becomes that text, the value and a newline, even without a final newline |
| `ConfigSync.ReplaceUnrepeated` | redshift.py:84 | replacing a value that does not occur in its key ending in `=` yields the key followed by the replacement |
| `ConfigSync.KeyValueLine` | redshift.py:83-86 | a newline-terminated `key=old` line, with no `=` or newline in the old value, becomes `key=<value>` plus a newline |
| `ConfigSync.LineWithoutEqualsRewrite` | redshift.py:83-86 | a matching line with no `=` is replaced entirely by the value and a newline |
| `ConfigSync.EmptyValueRewrite` | redshift.py:84 | a matching line ending in `=` gets the value and a newline inserted at every position, so it grows longer than key plus value |
| `ConfigSync.ArnLineExample` | redshift.py:83-84 | `ARN=old` plus a newline becomes `ARN=<arn>` plus a newline |
| `ConfigSync.HostLineExample` | redshift.py:85-86 | `HOST=old` plus a newline becomes `HOST=<endpoint>` plus a newline |
| `ConfigSync.WarningLineMatched` | redshift.py:83-84 | `WARNING=x` plus a newline contains `ARN`, so it is rewritten to `WARNING=<arn>` plus a newline (matching is a substring test) |
| `ConfigSync.LowercaseHostUnmatched` | redshift.py:83-88 | `host=h` plus a newline contains neither `ARN` nor `HOST` and is written back unchanged (matching is case-sensitive) |
| `ConfigSync.PlainFileUnchanged` | redshift.py:79-88 | a file in which neither `ARN` nor `HOST` occurs is written back unchanged, as the text read; on disk that is byte for byte only for a file without `\r` on a platform whose line separator is `\n` (see "Left out") |
| `ConfigSync.RewriteLineAnchored` | redshift.py:84 | the intended rewrite: unmatched lines unchanged; on a matched line with `=` and a value without `=`, reading back gives the same key part and the new value plus a newline |
| `ConfigSync.SegmentAfterKey` | redshift.py:84 | for a key ending in `=` and a value with no `=`, the value segment of `key + value` is the value and the key part is the key |
| `ConfigSync.AnchoredAgreesOnTerminatedLines` | redshift.py:83-86 | on newline-terminated lines the code as written equals the anchored rewrite |
| `ConfigSync.AnchoredWriteBack` | redshift.py:79-88 | one piece is written per line; in every file each piece except possibly the last is the anchored rewrite of its line (unmatched lines kept, matched lines get only their value replaced), and so is the last when the file is empty or ends in a newline |
| `ConfigSync.FinalLineQuirk` | redshift.py:84 | a last line `ARN=A` without a newline becomes `<arn>\nRN=<arn>\n` as written, and `ARN=<arn>\n` when anchored |
| `ConfigSync.ReplaceInQuirkLine` | redshift.py:84 | `"ARN=A".replace("A", rep)` replaces both occurrences of `A`, giving `rep + "RN=" + rep` |
| `ClusterProps.ShownProps` | redshift.py:143-144 | the rows are no more than the items, and an item is a row iff its key is one of the eight keys to show |
| `ClusterProps.ShownPropsAppend` | redshift.py:144 | filtering keeps the items' order: filtering a concatenation concatenates the filtered parts |
| `ClusterProps.ShownPropsIdempotent` | redshift.py:144 | filtering the rows again changes nothing |
| `ClusterProps.ShownPropsDistinct` | redshift.py:144 | rows taken from a dictionary (distinct keys) have distinct keys |
| `Dispatch.ExitStatus` | redshift.py:203-205 | the exit status is 0 exactly for a normal end, otherwise 1 |
| `Dispatch.RunScript` | redshift.py:203-237 | the `__main__` block: purpose check, clients, then the three separate mode tests, stopping at the first uncaught exception; the `Dispatch` lemmas below state its behaviour |
| `Dispatch.CreateClients` | redshift.py:217-218 | the IAM client and then the Redshift client; `ValidPurposeCreatesClients` states the order and what a failure does |
| `Dispatch.CreateMode` | redshift.py:220-226 | the `create` branch, with failures of role and cluster creation caught; `CreateOrder`, `ClusterUsesFetchedArn` and `CreateModeCalls` state its calls |
| `Dispatch.CheckMode` | redshift.py:228-234 | the `check` branch with `check_status_of_cluster` (redshift.py:156-158) and `get_endpoint` (redshift.py:173); `WriteBackOnlyWhenAvailable`, `CheckShowsSelectedProps` and `CheckModeCalls` state its calls and the file it leaves |
| `Dispatch.CleanMode` | redshift.py:236-237 | the `clean` branch, one cleanup call; `ModesAreExclusive` and `ExitStatusZero` state when it runs and how it ends |
| `Dispatch.InvalidPurposeExits` | redshift.py:203-218 | the process ends by the invalid-purpose exit iff the purpose is not `clean`, `check` or `create`; it then exits with status 1 before any client is created or any call made, with the config untouched |
| `Dispatch.ValidPurposeCreatesClients` | redshift.py:207-218 | with a valid purpose the first call creates the IAM client and, if that succeeds, the next creates the Redshift client, with the configured key and secret; if either raises, the process ends there with status 1 and the config untouched |
| `Dispatch.WriteBackOnlyWhenAvailable` | redshift.py:228-234 | the config is written back iff the purpose is `check`, the clients are created, the cluster is described, the second description's status is exactly `available` and both the ARN and endpoint are found; it is then rewritten with those values, otherwise left as it was |
| `Dispatch.CreateOrder` | redshift.py:217-226 | in `create` mode, when the clients, the policy attachment and the ARN lookup succeed, the calls are: clients, create role, attach policy, fetch ARN, create cluster with that same ARN; the run completes and the config is unchanged |
| `Dispatch.ClusterUsesFetchedArn` | redshift.py:220-226 | any cluster creation happens in `create` mode, right after create-role, attach-policy and fetch-ARN, with the ARN the provider returned |
| `Dispatch.ModesAreExclusive` | redshift.py:220-237 | role creation happens only for `create`, the status check (both cluster descriptions) only for `check`, cleanup only for `clean` |
| `Dispatch.CreateModeCalls` | redshift.py:220-226 | the `create` branch adds no status check and no cleanup |
| `Dispatch.CheckModeCalls` | redshift.py:228-234 | the `check` branch adds no role creation and no cleanup |
| `Dispatch.ExitStatusZero` | redshift.py:203-237 | the process exits with 0 iff the purpose is valid, both clients are created and none of that mode's uncaught calls fails (for `check`: both descriptions, and the ARN and endpoint lookups when the status is `available`) |
| `Dispatch.CheckShowsSelectedProps` | redshift.py:148-158 | in `check` mode, once the clients are created, the status summary shows exactly the filtered attributes of the first cluster description, right after the clients, and the second description, which reads the status, follows it |

## Left out

- The boto3 calls (`create_iam_client`, `create_iam_role`, `attach_policy_to_iam`, `get_ARN`, `create_redshift_client`, `create_redshift_cluster`, `check_status_of_cluster`, `get_endpoint`, `cleanup_resources`) are foreign API calls. They appear only as `Dispatch.Action` values, and their answers are the `Dispatch.Provider` parameter.
- The errors that `create_iam_role` and `create_redshift_cluster` catch and print are not modelled: those calls always let the run continue.
- `cleanup_resources` makes three calls; they are modelled as one `Cleanup` action that either succeeds or raises.
- `check_status_of_cluster` calls `describe_clusters` twice. Each call's answer (or its failure) is a separate field of `Dispatch.Provider`; what the cluster is like between the calls is not modelled beyond that.
- Exceptions raised while reading the configuration (`open('dwh.cfg')`, `config.read_file`, `config.get` on a missing section or option) are not modelled: the settings are a parameter that is always present.
- Exceptions raised by pandas inside `prettyRedshiftProps` (`set_option`, `DataFrame`) are not modelled: the summary is always shown once the description is returned.
- File I/O (`open`, `read`, `write`) and its errors are not modelled. The file is its content as a string. Text-mode universal newlines are not modelled: `readlines()` would turn `\r\n` and a lone `\r` into a line end, and the model splits lines at `\n` only. Nor is newline translation on writing: `open('dwh.cfg', 'w')` writes each `\n` as `os.linesep`. So a write-back, including that of `PlainFileUnchanged`, gives the file back byte for byte only when it holds no `\r` and the platform's line separator is `\n`; otherwise a CRLF file comes back with LF line ends, and on Windows an LF file comes back with CRLF.
- The help text of the `purpose` argument at redshift.py:197-200 is, as given, three single-quoted literals left open at the end of their lines, so Python rejects the file with a SyntaxError before any statement runs: every invocation would exit with status 1, make no call and write nothing. The model assumes they were meant as implicitly concatenated literals and models the script as if it compiled.
- When `purpose` is missing, argparse prints its usage and exits with status 2. The model always has a `purpose` string, so `Dispatch.ExitStatus` ranges over 0 and 1 only.
- `configparser` and `argparse` are not modelled. The settings read from the file are the `Dispatch.Settings` parameter, and `purpose` is a string.
- Printed output is not modelled: the invalid-purpose message, the exceptions that are printed, and the pandas rendering in `prettyRedshiftProps` (`set_option`, `DataFrame`). Only the filtered rows are kept.
- Cluster description values are modelled as strings in `Dispatch` (generic in `ClusterProps`).
- `etl.py` (`load_staging_tables`, `insert_tables`, `main`) only executes and commits SQL statements through psycopg2. The query lists come from `sql_queries`, which is not part of this model.

## Findings

| source | as written | input that shows it | evidently intended | confidence | as-written member | corrected member |
|---|---|---|---|---|---|---|
| redshift.py:84 | `line.replace(line.split("=")[-1], value + "\n")` replaces every occurrence of the old value, and an empty old value matches at every position | a last line `ARN=A` with no newline becomes `<arn>\nRN=<arn>\n`; a last line `ARN=` becomes the value and a newline inserted before each character and at the end | keep the text through the last `=` and replace only what follows it: `ARN=<arn>\n` | high; not executed | `ConfigSync.FinalLineQuirk` | `ConfigSync.RewriteLineAnchored` |

The write-back method and the dispatch model the code as written. On every
newline-terminated line the two definitions agree
(`ConfigSync.AnchoredAgreesOnTerminatedLines`). So in every configuration file
all lines but the last are written back as corrected, and for a file that ends
in a newline the whole write-back is the corrected one
(`ConfigSync.AnchoredWriteBack`).
