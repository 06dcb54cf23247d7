/** The server-block extractor: one pass over the direct children of a
    `server` block that keeps the last `server_name` and the last `root`. */
module ServerBlock {
  import opened Wrappers
  import opened NginxRow
  import opened Implode

  const ServerDirective: string := "server"
  const ServerNameDirective: string := "server_name"
  const RootDirective: string := "root"
  /** Separator placed between the arguments of a `root` directive. */
  const RootSeparator: string := ", "

  /** What one server block yields: its domain names and its document root,
      each absent when the block has no such directive. */
  datatype ServerInfo = ServerInfo(domains: Option<seq<string>>, root: Option<string>)

  /** The extractor was handed a block that is not a `server` block. */
  datatype ExtractError = InvalidServerBlock(line: nat)

  /** Index of the last child called `name`, if any. */
  function LastNamed(children: seq<Row>, name: string): (r: Option<nat>)
    ensures r.Some? ==> r.value < |children| && children[r.value].name == name
    ensures r.Some? ==> forall j :: r.value < j < |children| ==> children[j].name != name
    ensures r.None? <==> forall j :: 0 <= j < |children| ==> children[j].name != name
    decreases |children|
  {
    if |children| == 0 then None
    else if children[|children| - 1].name == name then Some(|children| - 1)
    else LastNamed(children[..|children| - 1], name)
  }

  /** The arguments of the last child called `name`, if any. */
  function LastValues(children: seq<Row>, name: string): (r: Option<seq<string>>)
    ensures r.None? <==> forall j :: 0 <= j < |children| ==> children[j].name != name
  {
    match LastNamed(children, name)
    case None => None
    case Some(i) => Some(children[i].values)
  }

  /** The record the extractor builds from the direct children of a server
      block: the last `server_name`'s arguments as the domains, and the last
      `root`'s arguments joined with ", " as the root. */
  function ServerFields(children: seq<Row>): (info: ServerInfo)
    ensures info.domains.None? <==> forall j :: 0 <= j < |children| ==> children[j].name != ServerNameDirective
    ensures info.root.None? <==> forall j :: 0 <= j < |children| ==> children[j].name != RootDirective
  {
    ServerInfo(
      LastValues(children, ServerNameDirective),
      match LastValues(children, RootDirective)
      case None => None
      case Some(v) => Some(Join(RootSeparator, v)))
  }

  /** The domains are the arguments of the last `server_name` child and the
      root is the arguments of the last `root` child joined with ", ". */
  lemma LastDirectiveDecides(children: seq<Row>, i: nat, name: string)
    requires i < |children| && children[i].name == name
    requires forall j :: i < j < |children| ==> children[j].name != name
    ensures name == ServerNameDirective ==> ServerFields(children).domains == Some(children[i].values)
    ensures name == RootDirective ==> ServerFields(children).root == Some(Join(RootSeparator, children[i].values))
  {
    assert LastNamed(children, name) == Some(i);
  }

  /** Last writer wins: a child appended after the others overwrites the field
      it names and leaves the other field as it was. */
  lemma {:induction false} LaterDirectiveOverwrites(children: seq<Row>, x: Row)
    ensures ServerFields(children + [x]).domains
         == (if x.name == ServerNameDirective then Some(x.values) else ServerFields(children).domains)
    ensures ServerFields(children + [x]).root
         == (if x.name == RootDirective then Some(Join(RootSeparator, x.values)) else ServerFields(children).root)
  {
    assert (children + [x])[..|children|] == children;
  }

  /** Visits the direct children of `server` in order and overwrites the
      domains on every `server_name` and the root on every `root`; any block
      not called `server` is refused with its line number. */
  method ProcessServerRows(server: Row) returns (r: Result<ServerInfo, ExtractError>)
    ensures r.Failure? <==> server.name != ServerDirective
    ensures r.Failure? ==> r.error == InvalidServerBlock(server.line)
    ensures r.Success? ==> r.value == ServerFields(server.rows)
  {
    if server.name != ServerDirective {
      return Failure(InvalidServerBlock(server.line));
    }
    var result := ServerInfo(None, None);
    var i := 0;
    while i < |server.rows|
      invariant 0 <= i <= |server.rows|
      invariant result == ServerFields(server.rows[..i])
    {
      var row := server.rows[i];
      if row.name == ServerNameDirective {
        result := result.(domains := Some(row.values));
      }
      if row.name == RootDirective {
        result := result.(root := Some(Join(RootSeparator, row.values)));
      }
      LaterDirectiveOverwrites(server.rows[..i], row);
      assert server.rows[..i + 1] == server.rows[..i] + [row];
      i := i + 1;
    }
    assert server.rows[..i] == server.rows;
    return Success(result);
  }

  /** Removing a child with a different name does not change which arguments
      are the last ones under `name`. */
  lemma {:induction false} LastValuesSkip(a: seq<Row>, x: Row, b: seq<Row>, name: string)
    requires x.name != name
    ensures LastValues(a + [x] + b, name) == LastValues(a + b, name)
    decreases |b|
  {
    if |b| == 0 {
      assert a + [x] + b == a + [x];
      assert (a + [x])[..|a|] == a;
      assert a + b == a;
    } else {
      var b' := b[..|b| - 1];
      var y := b[|b| - 1];
      assert b == b' + [y];
      assert a + [x] + b == (a + [x] + b') + [y];
      assert a + b == (a + b') + [y];
      assert ((a + [x] + b') + [y])[..|a + [x] + b'|] == a + [x] + b';
      assert ((a + b') + [y])[..|a + b'|] == a + b';
      LastValuesSkip(a, x, b', name);
    }
  }

  /** A child that is neither `server_name` nor `root` (a `location` block,
      `listen`, `index`, ...) leaves the record unchanged wherever it stands. */
  lemma OtherDirectivesIgnored(a: seq<Row>, x: Row, b: seq<Row>)
    requires x.name != ServerNameDirective && x.name != RootDirective
    ensures ServerFields(a + [x] + b) == ServerFields(a + b)
  {
    LastValuesSkip(a, x, b, ServerNameDirective);
    LastValuesSkip(a, x, b, RootDirective);
  }

  /** The extractor never looks inside a child: two child lists that agree on
      every name and argument list give the same record, whatever the
      children's nested blocks and line numbers are. */
  lemma {:induction false} NestedRowsIgnored(c: seq<Row>, d: seq<Row>)
    requires |c| == |d|
    requires forall k :: 0 <= k < |c| ==> c[k].name == d[k].name && c[k].values == d[k].values
    ensures ServerFields(c) == ServerFields(d)
  {
    LastNamedShallow(c, d, ServerNameDirective);
    LastNamedShallow(c, d, RootDirective);
  }

  lemma {:induction false} LastNamedShallow(c: seq<Row>, d: seq<Row>, name: string)
    requires |c| == |d|
    requires forall k :: 0 <= k < |c| ==> c[k].name == d[k].name
    ensures LastNamed(c, name) == LastNamed(d, name)
    decreases |c|
  {
    if |c| > 0 {
      LastNamedShallow(c[..|c| - 1], d[..|d| - 1], name);
    }
  }
}
