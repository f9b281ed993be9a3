/**
 * The parts of `http.server.BaseHTTPRequestHandler` that the handlers use,
 * taken as an assumed contract: `send_header(name, value)` queues the line
 * `name: value\r\n` in latin-1, and `end_headers()` adds the blank line and
 * sends the queued lines.
 */
module Http {
  import opened Wrappers
  import opened Text

  datatype Header = Header(name: string, value: string)

  const COLON_SP: seq<byte> := Latin1(": ")

  /** `("%s: %s\r\n" % (name, value)).encode("latin-1")`. */
  function HeaderLine(h: Header): seq<byte> {
    Latin1(h.name) + COLON_SP + Latin1(h.value) + CRLF
  }

  lemma {:induction false} HeaderLineText(h: Header)
    ensures HeaderLine(h) == Latin1(h.name + ": " + h.value + "\r\n")
  {
  }

  function HeaderLines(headers: seq<Header>): seq<byte>
    decreases |headers|
  {
    if headers == [] then [] else HeaderLine(headers[0]) + HeaderLines(headers[1..])
  }

  /** The bytes `end_headers()` sends for the queued headers. */
  function HeaderBlock(headers: seq<Header>): seq<byte> {
    HeaderLines(headers) + CRLF
  }

  /** The value of the first header called `name`. */
  function Lookup(headers: seq<Header>, name: string): (r: Option<string>)
    ensures r.Some? <==> exists i | 0 <= i < |headers| :: headers[i].name == name
    ensures r.Some? ==> exists i | 0 <= i < |headers| :: headers[i] == Header(name, r.value) &&
                          forall j | 0 <= j < i :: headers[j].name != name
    decreases |headers|
  {
    if headers == [] then None
    else if headers[0].name == name then Some(headers[0].value)
    else
      var r := Lookup(headers[1..], name);
      assert forall i | 1 <= i < |headers| :: headers[i] == headers[1..][i - 1];
      r
  }
}
