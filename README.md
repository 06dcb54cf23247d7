# read-nginx-config, modelled in Dafny

`read-config.php` reads nginx configuration files and reports every `server`
block that has a document root. For each block it reports the block's domain
names and its root, and it can also write one CSV record per block. An
external library parses the nginx syntax. This model takes that library's
output, a tree of `Row`s (name, argument strings, nested rows, line number),
as given. It covers what the script does with that tree:

- `ServerBlock` models the server-block extractor `processServerRows`. It reads
  the direct children of a `server` block from left to right. Each
  `server_name` overwrites the domains and each `root` overwrites the root.
  The arguments of `root` are joined with `", "`. Anything else, nested blocks
  included, is ignored. A block whose name is not `server` is refused, with
  its line number.
- `Report` models the main loops. Only top-level `server` blocks go to the
  extractor, and only those that have a root are reported. Each reported
  block becomes a four-field record: config name, first domain, the other
  domains joined with the two characters backslash and `n`, and the root.
  These fields match the CSV header `config, server, aliases, root`. The CSV
  output is modelled as a sequence of records, not as bytes.
- `Implode` models PHP's `implode`. `Wrappers` holds Option/Result. `NginxRow`
  holds the parse tree type.

Each stateful loop in the source is a Dafny `method`: `ProcessServerRows`,
`ReportConfig` (the loop over one file's top-level blocks) and `RunReport`
(the loop over files). Each method is proved equal to a specification
function (`ServerFields`, `ReportOf`, `ReportAll`). Lemmas state the
properties of those functions.

One case is not checked by the source. A block can have a `root` but no
`server_name`, or a `server_name` with no arguments. Lines 31 and 38 of the
script still index and implode the domains in that case. With no
`server_name` at all, PHP 8 raises a TypeError in `implode` at line 31, which
ends the run. With an empty `server_name`, PHP only warns and writes an empty
`server` field. The model treats both cases as an explicit error,
`MissingServerName(line)`, that stops the report. The report stops at the
first such block and keeps the records of the blocks before it, because
`fputcsv` writes each record as soon as it is built
(`Report.HaltsAtFirstBlockLackingDomain`).

## Model

| member | source | states |
|---|---|---|
| `ServerBlock.LastNamed` | src/read-config.php:79-86 | The index it returns is a child with the given name, and no later child has that name. It returns nothing exactly when no child has that name. |
| `ServerBlock.LastValues` | src/read-config.php:79-86 | The result is absent exactly when no direct child has the given name. |
| `ServerBlock.ServerFields` | src/read-config.php:77-99 | `domains` is absent exactly when no direct child is `server_name`. `root` is absent exactly when no direct child is `root`. |
| `ServerBlock.LastDirectiveDecides` | src/read-config.php:80-86 | If child i is the last `server_name`, the domains are its arguments. If child i is the last `root`, the root is its arguments joined with ", ". |
| `ServerBlock.LaterDirectiveOverwrites` | src/read-config.php:79-86 | A child appended at the end overwrites the field it names (last writer wins). The other field does not change. |
| `ServerBlock.ProcessServerRows` | src/read-config.php:71-100 | It fails, with the block's line, exactly when the block is not named `server`. Otherwise its loop's result is the record `ServerFields` specifies for the block's direct children. |
| `ServerBlock.LastValuesSkip` | src/read-config.php:79-86 | Removing a child with another name does not change the last arguments under a name. |
| `ServerBlock.OtherDirectivesIgnored` | src/read-config.php:79-97 | Inserting a child that is neither `server_name` nor `root`, anywhere, does not change the record. |
| `ServerBlock.LastNamedShallow` | src/read-config.php:79-86 | The last index with a name depends only on the children's names. |
| `ServerBlock.NestedRowsIgnored` | src/read-config.php:79-97 | The record depends only on the children's names and arguments. It is the same whatever their nested rows and line numbers are. |
| `Implode.Join` | src/read-config.php:85 | PHP's `implode`, used at lines 31, 39 and 85. The joined string is at least as long as all the parts together. |
| `Implode.JoinEnds` | src/read-config.php:85 | The joined string starts with the first part and ends with the last part. |
| `Implode.JoinAppend` | src/read-config.php:85 | Joining two non-empty lists gives the two joins with exactly one separator between them. |
| `Implode.JoinLength` | src/read-config.php:39 | The length of the join is the total length of the parts plus one separator for each gap. |
| `Report.CsvRecord` | src/read-config.php:36-41 | A record has as many fields as the header. Field 1 is the config name, field 2 the first domain, field 4 the root. Field 3 joins the other domains with backslash-n, and it is empty for a single domain. |
| `Report.AliasesLength` | src/read-config.php:39 | For n domains, the aliases field's length is the total length of the n - 1 aliases plus 2 * (n - 2), one two-character separator for each gap. |
| `Report.FindAliasSeparator` | src/read-config.php:39 | It returns the first position of backslash-n in a string, and nothing exactly when the string does not contain it. |
| `Report.SplitAliases` | src/read-config.php:39 | It splits an aliases field back at each backslash-n, and always gives at least one part. |
| `Report.FirstSeparatorAfterAlias` | src/read-config.php:39 | After an alias without backslash-n, the first separator is the one that follows the alias. |
| `Report.SplitAfterAlias` | src/read-config.php:39 | Splitting an alias, a separator and the rest gives the alias, then the split of the rest. |
| `Report.SplitJoinAliases` | src/read-config.php:39 | If no alias contains backslash-n, splitting the joined aliases gives them back in order. |
| `Report.AliasesRoundTrip` | src/read-config.php:38-39 | With two or more domains, and no alias containing backslash-n, the aliases field splits back into every domain after the first. |
| `Report.LacksDomain` | src/read-config.php:30-38 | The case the source does not check: a `server` block that has a root but no domain at lines 31 and 38. Such a block is a `server` block with at least one child. |
| `Report.LacksDomainByChildren` | src/read-config.php:79-82 | The domains are absent or empty exactly when every `server_name` child has no arguments or is followed by a later one. |
| `Report.LacksDomainIff` | src/read-config.php:30-38 | A block lacks a domain exactly when it is a `server` block with a `root` child and no `server_name` child with arguments that is the last `server_name`. |
| `Report.BlockRecord` | src/read-config.php:27-44 | A block fails, with its line, exactly when it is a `server` block with a root but no domain. It yields a record exactly when it is a `server` block with a root and a domain. The record has four fields and starts with the config name. |
| `Report.ReportOf` | src/read-config.php:26-47 | A file has no more records than it has top-level blocks. Every record has four fields and starts with the file's config name. |
| `Report.Extend` | src/read-config.php:27-44 | One pass of the loop over blocks. The report stops exactly when it had stopped or the block fails. Earlier records are kept. At most one record is added, exactly when the report was running and the block yields a record, and that record is the block's. |
| `Report.Then` | src/read-config.php:18-48 | One file's report following the previous ones. A stopped report is kept as it is. Otherwise the records are the earlier ones followed by the new file's, and the stop is the new file's. |
| `Report.ThenExtend` | src/read-config.php:26-47 | Adding one block after two concatenated reports is the same as adding it to the second report first. |
| `Report.ReportAppend` | src/read-config.php:26-47 | The report of a concatenation is the report of the first part, then the report of the second. The second part is dropped if the first part stopped. |
| `Report.HaltedReportStays` | src/read-config.php:26-47 | Once the report has stopped, later blocks change nothing. |
| `Report.ReportSnoc` | src/read-config.php:26-47 | Appending one block adds exactly what `BlockRecord` says that block gives. |
| `Report.ReportSingle` | src/read-config.php:26-44 | A one-block file gives no record, one record, or the error, as `BlockRecord` decides. |
| `Report.NonServerBlocksIgnored` | src/read-config.php:26-27 | A top-level block not named `server` contributes nothing, wherever it stands. |
| `Report.RecordIffRoot` | src/read-config.php:30 | A `server` block that has a domain gives one record if its record has a root, and none otherwise. |
| `Report.CompleteIffAllHaveDomains` | src/read-config.php:30-38 | The report runs to the end exactly when no `server` block has a root without a domain. |
| `Report.HaltsAtFirstBlockLackingDomain` | src/read-config.php:26-44 | If block i is the first block that lacks a domain, the report holds exactly the records of the blocks before it and stops with block i's line. |
| `Report.HaltedAtBlockLackingDomain` | src/read-config.php:31-38 | A stopped report names the line of a `server` block that has a root but no domain. |
| `Report.ServerBlocksWithRoot` | src/read-config.php:27-30 | Every block it selects is a top-level block named `server` whose record has a root. |
| `Report.CompleteReportCoversRootedServers` | src/read-config.php:26-44 | A report that ran to the end has one record per `server` block with a root, in file order. Each record is built from that block's domains and root. |
| `Report.ReportStep` | src/read-config.php:26-44 | If the report of the first i blocks is still running, adding block i gives exactly what `Extend` says that block contributes. |
| `Report.ReportConfig` | src/read-config.php:26-47 | The loop over one file's top-level blocks, with its early stop, computes `ReportOf`. |
| `Report.ReportAll` | src/read-config.php:18-48 | Every record over all files has four fields. |
| `Report.RecordsNameTheirFile` | src/read-config.php:20-37 | Every record's first field is the name of one of the files. |
| `Report.CsvLines` | src/read-config.php:13-16 | The CSV file is the header followed by one line per record. Every line has as many fields as the header. |
| `Report.RunReport` | src/read-config.php:18-48 | The loop over the files, stopping at the first error, computes `ReportAll`. |
| `Report.HaltedRunStays` | src/read-config.php:18-48 | Once a file's report has stopped, later files change nothing. |

## Left out

- Parsing nginx syntax (`Parser::parseFile`) belongs to an external library. Its output is the input `Row` tree here.
- Command-line handling (`parseOpts`, `getopt`), the help text and the `exit` codes are process plumbing.
- Listing and checking files (`getFiles`, `realpath`, `file_exists`, directory iteration) is filesystem I/O. The model takes the parsed files as a sequence.
- Building the config name with `pathinfo` and `basename` (lines 19-20) depends on PHP's path rules. The name is an input string.
- `fopen`, `fputcsv` and `fclose`, with CSV quoting and escaping, are library I/O. Records are sequences of four strings. The `-o` switch is not modelled: the records are what would be written if it were given.
- The text written to standard output (`write`, `error`, lines 23-24 and 31-33) is not modelled. It is a side effect.
- The redirect handling at lines 88-96 is commented out, so it never runs.
- `processServerRows` returns nothing for a non-`server` block. The main loop never passes it one, so `ReportConfig` always gets `Success`.
- Report.BlockRecord: a rooted block with a `server_name` that has no arguments stops the report here. PHP would only warn and write an empty `server` field.
- Names are compared exactly. The source's loose `==` on line 80 and line 84 behaves the same, because `server_name` and `root` are not numeric strings.
