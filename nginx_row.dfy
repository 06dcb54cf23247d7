/** The parse tree handed over by the external nginx configuration parser.
    Only the fields the report reads are kept. */
module NginxRow {

  /** One directive or block of an nginx configuration: its name
      (`server`, `server_name`, `root`, `location`, ...), its argument
      strings in order, its nested directives, and the line it starts on. */
  datatype Row = Row(name: string, values: seq<string>, rows: seq<Row>, line: nat)
}
