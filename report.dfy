/** The report: which top-level blocks of a configuration become CSV records,
    and what each record holds. */
module Report {
  import opened Wrappers
  import opened NginxRow
  import opened Implode
  import opened ServerBlock

  /** One CSV record, as the array handed to `fputcsv`. */
  type Record = seq<string>

  /** The first line of the CSV file. */
  const Header: Record := ["config", "server", "aliases", "root"]

  /** The two characters backslash and `n` (not a line break) that separate
      the aliases of a server. */
  const AliasSeparator: string := ['\\', 'n']

  /** A server block has a root but no domain to report it under. */
  datatype ReportError = MissingServerName(line: nat)

  /** The records emitted in order, and the error that stopped the report
      early, if one did. */
  datatype Report = Report(records: seq<Record>, halted: Option<ReportError>)

  /** Whether the two characters backslash-n occur in `s`. */
  predicate HasAliasSeparator(s: string)
  {
    exists k :: 0 <= k < |s| - 1 && s[k] == '\\' && s[k + 1] == 'n'
  }

  /** The position of the first backslash-n in `s`, if any. */
  function FindAliasSeparator(s: string): (r: Option<nat>)
    ensures r.Some? ==> r.value + 1 < |s| && s[r.value] == '\\' && s[r.value + 1] == 'n'
    ensures r.Some? ==> forall j :: 0 <= j < r.value ==> !(s[j] == '\\' && s[j + 1] == 'n')
    ensures r.None? <==> !HasAliasSeparator(s)
    decreases |s|
  {
    if |s| < 2 then None
    else if s[0] == '\\' && s[1] == 'n' then Some(0)
    else
      match FindAliasSeparator(s[1..])
      case None => None
      case Some(k) => Some(k + 1)
  }

  /** Splits an aliases field at every backslash-n, the inverse of how the
      field is built. */
  function SplitAliases(s: string): (parts: seq<string>)
    ensures |parts| > 0
    decreases |s|
  {
    match FindAliasSeparator(s)
    case None => [s]
    case Some(k) => [s[..k]] + SplitAliases(s[k + 2..])
  }

  /** After an alias free of backslash-n, the first separator is the one
      that follows it: the alias's own last backslash cannot pair with it. */
  lemma FirstSeparatorAfterAlias(alias: string, rest: string)
    requires !HasAliasSeparator(alias)
    ensures FindAliasSeparator(alias + AliasSeparator + rest) == Some(|alias|)
  {
    var s := alias + AliasSeparator + rest;
    assert s[|alias|] == '\\' && s[|alias| + 1] == 'n';
  }

  /** Splitting an alias, a separator and the rest gives the alias, then the
      split of the rest. */
  lemma SplitAfterAlias(alias: string, rest: string)
    requires !HasAliasSeparator(alias)
    ensures SplitAliases(alias + AliasSeparator + rest) == [alias] + SplitAliases(rest)
  {
    var s := alias + AliasSeparator + rest;
    FirstSeparatorAfterAlias(alias, rest);
    assert s[..|alias|] == alias;
    assert s[|alias| + 2..] == rest;
  }

  /** Splitting joined aliases gives them back, provided none of them holds
      backslash-n itself. */
  lemma {:induction false} SplitJoinAliases(aliases: seq<string>)
    requires |aliases| > 0
    requires forall k :: 0 <= k < |aliases| ==> !HasAliasSeparator(aliases[k])
    ensures SplitAliases(Join(AliasSeparator, aliases)) == aliases
    decreases |aliases|
  {
    if |aliases| > 1 {
      var tail := aliases[1..];
      var rest := Join(AliasSeparator, tail);
      assert Join(AliasSeparator, aliases) == aliases[0] + AliasSeparator + rest;
      SplitAfterAlias(aliases[0], rest);
      assert forall k :: 0 <= k < |tail| ==> tail[k] == aliases[k + 1];
      SplitJoinAliases(tail);
      assert SplitAliases(rest) == tail;
      HeadAndTail(aliases);
    } else {
      assert Join(AliasSeparator, aliases) == aliases[0];
      assert !HasAliasSeparator(aliases[0]);
    }
  }

  lemma HeadAndTail(s: seq<string>)
    requires |s| > 0
    ensures [s[0]] + s[1..] == s
  {
  }

  /** The aliases field of a record with two or more domains splits back into
      every domain after the first. */
  lemma AliasesRoundTrip(configName: string, domains: seq<string>, root: string)
    requires |domains| > 1
    requires forall k :: 1 <= k < |domains| ==> !HasAliasSeparator(domains[k])
    ensures SplitAliases(CsvRecord(configName, domains, root)[2]) == domains[1..]
  {
    SplitJoinAliases(domains[1..]);
  }

  /** A block that has a root but no `server_name`, or one without
      arguments. */
  predicate LacksDomain(block: Row): (b: bool)
    ensures b ==> block.name == ServerDirective && |block.rows| > 0
  {
    var info := ServerFields(block.rows);
    block.name == ServerDirective && info.root.Some? && (info.domains.None? || |info.domains.value| == 0)
  }

  /** The domains are absent or empty exactly when every `server_name` child
      either has no arguments or is followed by a later one. */
  lemma LacksDomainByChildren(children: seq<Row>)
    ensures (ServerFields(children).domains.None? || |ServerFields(children).domains.value| == 0)
        <==> forall j :: 0 <= j < |children| && children[j].name == ServerNameDirective ==>
               children[j].values == [] || exists k :: j < k < |children| && children[k].name == ServerNameDirective
  {
    var r := LastNamed(children, ServerNameDirective);
    if r.Some? {
      var i := r.value;
      if children[i].values != [] {
        assert !(exists k :: i < k < |children| && children[k].name == ServerNameDirective);
      } else {
        forall j | 0 <= j < |children| && children[j].name == ServerNameDirective && children[j].values != []
          ensures exists k :: j < k < |children| && children[k].name == ServerNameDirective
        {
          assert j != i;
          assert j < i;
        }
      }
    }
  }

  /** In terms of the children: a block lacks a domain exactly when it is a
      `server` block with a `root` child and every `server_name` child either
      has no arguments or is followed by a later one. */
  lemma LacksDomainIff(block: Row)
    ensures LacksDomain(block) <==>
      && block.name == ServerDirective
      && (exists j :: 0 <= j < |block.rows| && block.rows[j].name == RootDirective)
      && forall j :: 0 <= j < |block.rows| && block.rows[j].name == ServerNameDirective ==>
           block.rows[j].values == [] || exists k :: j < k < |block.rows| && block.rows[k].name == ServerNameDirective
  {
    LacksDomainByChildren(block.rows);
  }

  /** The record of one reported server: the configuration's name, the first
      domain, the other domains separated by backslash-n, and the root. */
  function CsvRecord(configName: string, domains: seq<string>, root: string): (r: Record)
    requires |domains| > 0
    ensures |r| == |Header|
    ensures r[0] == configName && r[1] == domains[0] && r[3] == root
    ensures r[2] == Join(AliasSeparator, domains[1..])
    ensures |domains| == 1 ==> r[2] == ""
  {
    [configName, domains[0], Join(AliasSeparator, domains[1..]), root]
  }

  /** The aliases field holds every alias with the two-character separator
      between neighbours: for n domains, n - 2 separators. */
  lemma AliasesLength(configName: string, domains: seq<string>, root: string)
    requires |domains| > 1
    ensures |CsvRecord(configName, domains, root)[2]| == TotalLength(domains[1..]) + 2 * (|domains| - 2)
  {
    JoinLength(AliasSeparator, domains[1..]);
  }

  /** What one top-level block contributes: nothing unless it is a `server`
      block with a root, an error if such a block has no domain, and
      otherwise its record. */
  function BlockRecord(configName: string, block: Row): (r: Result<Option<Record>, ReportError>)
    ensures r.Failure? <==> LacksDomain(block)
    ensures r.Failure? ==> r.error == MissingServerName(block.line)
    ensures r.Success? && r.value.Some? <==> block.name == ServerDirective && ServerFields(block.rows).root.Some? && !LacksDomain(block)
    ensures r.Success? && r.value.Some? ==> |r.value.value| == |Header| && r.value.value[0] == configName
  {
    if block.name != ServerDirective then Success(None)
    else
      var info := ServerFields(block.rows);
      if info.root.None? then Success(None)
      else if info.domains.None? || |info.domains.value| == 0 then Failure(MissingServerName(block.line))
      else Success(Some(CsvRecord(configName, info.domains.value, info.root.value)))
  }

  /** The report of one parsed configuration file, block by block, stopping
      at the first block that lacks a domain. */
  function ReportOf(configName: string, config: seq<Row>): (rep: Report)
    ensures |rep.records| <= |config|
    ensures forall k :: 0 <= k < |rep.records| ==> |rep.records[k]| == |Header| && rep.records[k][0] == configName
    decreases |config|
  {
    if |config| == 0 then Report([], None)
    else Extend(ReportOf(configName, config[..|config| - 1]), BlockRecord(configName, config[|config| - 1]))
  }

  /** The report after one more block: unchanged once stopped, otherwise
      stopped by the block's error or extended by its record, if any. */
  function Extend(prev: Report, contribution: Result<Option<Record>, ReportError>): (r: Report)
    ensures r.halted.Some? <==> prev.halted.Some? || contribution.Failure?
    ensures |prev.records| <= |r.records| <= |prev.records| + 1 && r.records[..|prev.records|] == prev.records
    ensures |r.records| == |prev.records| + 1 <==> prev.halted.None? && contribution.Success? && contribution.value.Some?
    ensures |r.records| == |prev.records| + 1 ==> r.records[|prev.records|] == contribution.value.value
  {
    if prev.halted.Some? then prev
    else
      match contribution
      case Failure(e) => Report(prev.records, Some(e))
      case Success(None) => prev
      case Success(Some(rec)) => Report(prev.records + [rec], None)
  }

  lemma ThenExtend(first: Report, second: Report, contribution: Result<Option<Record>, ReportError>)
    ensures Then(first, Extend(second, contribution)) == Extend(Then(first, second), contribution)
  {
    if first.halted.None? && second.halted.None? && contribution.Success? && contribution.value.Some? {
      assert first.records + (second.records + [contribution.value.value])
          == (first.records + second.records) + [contribution.value.value];
    }
  }

  /** The report of one part followed by the report of the next, unless the
      first part already stopped. */
  function Then(first: Report, second: Report): (r: Report)
    ensures first.halted.Some? ==> r == first
    ensures first.halted.None? ==> |r.records| == |first.records| + |second.records|
                                   && r.records[..|first.records|] == first.records
                                   && r.records[|first.records|..] == second.records && r.halted == second.halted
  {
    if first.halted.Some? then first else Report(first.records + second.records, second.halted)
  }

  /** A configuration's report is the report of any prefix followed by the
      report of the rest. */
  lemma {:induction false} ReportAppend(configName: string, a: seq<Row>, b: seq<Row>)
    ensures ReportOf(configName, a + b) == Then(ReportOf(configName, a), ReportOf(configName, b))
    decreases |b|
  {
    if |b| == 0 {
      assert a + b == a;
    } else {
      var b', y := b[..|b| - 1], b[|b| - 1];
      assert (a + b)[..|a + b| - 1] == a + b';
      assert (a + b)[|a + b| - 1] == y;
      ReportAppend(configName, a, b');
      ThenExtend(ReportOf(configName, a), ReportOf(configName, b'), BlockRecord(configName, y));
    }
  }

  /** Once the report has stopped, later blocks change nothing. */
  lemma HaltedReportStays(configName: string, config: seq<Row>, n: nat)
    requires n <= |config| && ReportOf(configName, config[..n]).halted.Some?
    ensures ReportOf(configName, config) == ReportOf(configName, config[..n])
  {
    var a, b := config[..n], config[n..];
    assert a + b == config;
    ReportAppend(configName, a, b);
    assert Then(ReportOf(configName, a), ReportOf(configName, b)) == ReportOf(configName, a);
  }

  /** Appending one block extends the report by what that block
      contributes, unless the report had already stopped. */
  lemma ReportSnoc(configName: string, init: seq<Row>, x: Row)
    ensures ReportOf(configName, init + [x]) == Extend(ReportOf(configName, init), BlockRecord(configName, x))
  {
    assert (init + [x])[..|init|] == init;
  }

  /** A single top-level block is reported exactly as `BlockRecord` says. */
  lemma ReportSingle(configName: string, block: Row)
    ensures ReportOf(configName, [block]) ==
      match BlockRecord(configName, block)
      case Failure(e) => Report([], Some(e))
      case Success(None) => Report([], None)
      case Success(Some(rec)) => Report([rec], None)
  {
    assert [block][..0] == [];
  }

  /** A top-level block not called `server` (an `http`, `upstream` or
      `events` block, or a stray directive) contributes nothing. */
  lemma NonServerBlocksIgnored(configName: string, a: seq<Row>, x: Row, b: seq<Row>)
    requires x.name != ServerDirective
    ensures ReportOf(configName, a + [x] + b) == ReportOf(configName, a + b)
  {
    ReportAppend(configName, a + [x], b);
    ReportAppend(configName, a, [x]);
    ReportSingle(configName, x);
    assert ReportOf(configName, a).records + [] == ReportOf(configName, a).records;
    assert ReportOf(configName, a + [x]) == ReportOf(configName, a);
    ReportAppend(configName, a, b);
  }

  /** A server block yields a record if and only if its record has a root
      (provided it also has a domain). */
  lemma RecordIffRoot(configName: string, block: Row)
    requires block.name == ServerDirective
    requires !LacksDomain(block)
    ensures |ReportOf(configName, [block]).records| == (if ServerFields(block.rows).root.Some? then 1 else 0)
    ensures ReportOf(configName, [block]).halted == None
  {
    ReportSingle(configName, block);
  }

  /** The report runs to the end exactly when no block lacks a domain. */
  lemma {:induction false} CompleteIffAllHaveDomains(configName: string, config: seq<Row>)
    ensures ReportOf(configName, config).halted.None? <==> forall i :: 0 <= i < |config| ==> !LacksDomain(config[i])
    decreases |config|
  {
    if |config| > 0 {
      var init := config[..|config| - 1];
      CompleteIffAllHaveDomains(configName, init);
      assert forall i :: 0 <= i < |init| ==> init[i] == config[i];
    }
  }

  /** A report that stopped names the line of a block that lacks a domain. */
  lemma {:induction false} HaltedAtBlockLackingDomain(configName: string, config: seq<Row>)
    requires ReportOf(configName, config).halted.Some?
    ensures exists i :: 0 <= i < |config| && LacksDomain(config[i])
                        && ReportOf(configName, config).halted.value == MissingServerName(config[i].line)
    decreases |config|
  {
    var init := config[..|config| - 1];
    if ReportOf(configName, init).halted.Some? {
      HaltedAtBlockLackingDomain(configName, init);
      var i :| 0 <= i < |init| && LacksDomain(init[i]) && ReportOf(configName, init).halted.value == MissingServerName(init[i].line);
      assert config[i] == init[i];
    } else {
      assert LacksDomain(config[|config| - 1]);
    }
  }

  /** The report stops at the first block that lacks a domain, holding the
      records of the blocks before it and that block's line. */
  lemma HaltsAtFirstBlockLackingDomain(configName: string, config: seq<Row>, i: nat)
    requires i < |config| && LacksDomain(config[i])
    requires forall j :: 0 <= j < i ==> !LacksDomain(config[j])
    ensures ReportOf(configName, config)
         == Report(ReportOf(configName, config[..i]).records, Some(MissingServerName(config[i].line)))
  {
    var init := config[..i];
    assert forall j :: 0 <= j < |init| ==> init[j] == config[j];
    CompleteIffAllHaveDomains(configName, init);
    assert config[..i + 1] == init + [config[i]];
    ReportSnoc(configName, init, config[i]);
    HaltedReportStays(configName, config, i + 1);
  }

  /** The server blocks that have a root, in their order in the file. */
  function ServerBlocksWithRoot(config: seq<Row>): (s: seq<Row>)
    ensures forall k :: 0 <= k < |s| ==> s[k] in config && s[k].name == ServerDirective && ServerFields(s[k].rows).root.Some?
    decreases |config|
  {
    if |config| == 0 then []
    else
      var last := config[|config| - 1];
      var init := ServerBlocksWithRoot(config[..|config| - 1]);
      if last.name == ServerDirective && ServerFields(last.rows).root.Some? then init + [last] else init
  }

  /** A report that ran to the end has one record per server block with a
      root, in order, naming that block's first domain and its root. */
  lemma {:induction false} CompleteReportCoversRootedServers(configName: string, config: seq<Row>)
    requires ReportOf(configName, config).halted.None?
    ensures |ReportOf(configName, config).records| == |ServerBlocksWithRoot(config)|
    ensures forall k :: 0 <= k < |ServerBlocksWithRoot(config)| ==>
      var info := ServerFields(ServerBlocksWithRoot(config)[k].rows);
      && info.domains.Some? && |info.domains.value| > 0 && info.root.Some?
      && ReportOf(configName, config).records[k] == CsvRecord(configName, info.domains.value, info.root.value)
    decreases |config|
  {
    if |config| > 0 {
      var init := config[..|config| - 1];
      CompleteReportCoversRootedServers(configName, init);
    }
  }

  /** One step of the loop over the blocks of a file that has not stopped. */
  lemma ReportStep(configName: string, config: seq<Row>, i: nat, records: seq<Record>)
    requires i < |config| && ReportOf(configName, config[..i]) == Report(records, None)
    ensures ReportOf(configName, config[..i + 1]) == Extend(Report(records, None), BlockRecord(configName, config[i]))
  {
    assert config[..i + 1] == config[..i] + [config[i]];
    ReportSnoc(configName, config[..i], config[i]);
  }

  /** The report loop over the top-level blocks of one configuration file:
      only `server` blocks go to the extractor, only those with a root are
      written, and a rooted block without a domain stops the report. */
  method ReportConfig(configName: string, config: seq<Row>) returns (rep: Report)
    ensures rep == ReportOf(configName, config)
  {
    var records: seq<Record> := [];
    var i := 0;
    while i < |config|
      invariant 0 <= i <= |config|
      invariant ReportOf(configName, config[..i]) == Report(records, None)
    {
      var row := config[i];
      ReportStep(configName, config, i, records);
      ghost var contribution := BlockRecord(configName, row);
      if row.name == ServerDirective {
        var server := ProcessServerRows(row);
        var info := server.value;
        if info.root.Some? {
          if info.domains.None? || |info.domains.value| == 0 {
            assert contribution == Failure(MissingServerName(row.line));
            rep := Report(records, Some(MissingServerName(row.line)));
            assert ReportOf(configName, config[..i + 1]) == rep;
            HaltedReportStays(configName, config, i + 1);
            return;
          }
          var rec := CsvRecord(configName, info.domains.value, info.root.value);
          assert contribution == Success(Some(rec));
          records := records + [rec];
        } else {
          assert contribution == Success(None);
        }
      } else {
        assert contribution == Success(None);
      }
      i := i + 1;
    }
    assert config[..i] == config;
    return Report(records, None);
  }

  /** A configuration file handed over by the parser, with the name the
      report gives it. */
  datatype ConfigFile = ConfigFile(name: string, rows: seq<Row>)

  /** The report over all configuration files, in order. */
  function ReportAll(files: seq<ConfigFile>): (rep: Report)
    ensures forall k :: 0 <= k < |rep.records| ==> |rep.records[k]| == |Header|
    decreases |files|
  {
    if |files| == 0 then Report([], None)
    else
      var last := files[|files| - 1];
      Then(ReportAll(files[..|files| - 1]), ReportOf(last.name, last.rows))
  }

  /** Every record is tagged with the name of one of the files. */
  lemma {:induction false} RecordsNameTheirFile(files: seq<ConfigFile>)
    ensures forall k :: 0 <= k < |ReportAll(files).records| ==>
      exists f :: f in files && ReportAll(files).records[k][0] == f.name
    decreases |files|
  {
    if |files| > 0 {
      var init, last := files[..|files| - 1], files[|files| - 1];
      RecordsNameTheirFile(init);
      var prev, part := ReportAll(init), ReportOf(last.name, last.rows);
      assert ReportAll(files) == Then(prev, part);
      forall k | 0 <= k < |ReportAll(files).records|
        ensures exists f :: f in files && ReportAll(files).records[k][0] == f.name
      {
        if k < |prev.records| {
          assert ReportAll(files).records[k] == prev.records[k];
          var f :| f in init && prev.records[k][0] == f.name;
          assert f in files;
        } else {
          assert ReportAll(files).records[k] == part.records[k - |prev.records|];
          assert last in files;
        }
      }
    } else {
      assert ReportAll(files).records == [];
    }
  }

  /** The lines of the CSV file: the header, then one record per reported
      server; every line has as many fields as the header. */
  function CsvLines(files: seq<ConfigFile>): (lines: seq<Record>)
    ensures |lines| == |ReportAll(files).records| + 1 && lines[0] == Header
    ensures forall k :: 0 <= k < |lines| ==> |lines[k]| == |Header|
  {
    [Header] + ReportAll(files).records
  }

  /** The outer loop over the configuration files: each file's report is
      appended, and the first error stops the whole run. */
  method RunReport(files: seq<ConfigFile>) returns (rep: Report)
    ensures rep == ReportAll(files)
  {
    rep := Report([], None);
    var i := 0;
    while i < |files|
      invariant 0 <= i <= |files|
      invariant rep == ReportAll(files[..i])
      invariant rep.halted.None?
    {
      var file := files[i];
      assert files[..i + 1][..i] == files[..i];
      assert files[..i + 1][i] == file;
      var part := ReportConfig(file.name, file.rows);
      rep := Then(rep, part);
      assert rep == ReportAll(files[..i + 1]);
      if rep.halted.Some? {
        HaltedRunStays(files, i + 1);
        return;
      }
      i := i + 1;
    }
    assert files[..i] == files;
  }

  /** Once a file's report has stopped, later files change nothing. */
  lemma {:induction false} HaltedRunStays(files: seq<ConfigFile>, n: nat)
    requires n <= |files| && ReportAll(files[..n]).halted.Some?
    ensures ReportAll(files) == ReportAll(files[..n])
    decreases |files| - n
  {
    if n < |files| {
      var next := files[..n + 1];
      assert next[..n] == files[..n];
      assert ReportAll(next) == ReportAll(files[..n]);
      HaltedRunStays(files, n + 1);
    } else {
      assert files[..n] == files;
    }
  }
}
