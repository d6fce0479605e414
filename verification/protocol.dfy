/**
 The client protocol handler (`handle_connection` in src/main.rs) once the
 socket is stripped away: one received line and the store go in; the
 response text, the new store and the messages published on the bus come
 out.
 */
module Protocol {
  import opened Wrappers
  import opened Strings
  import opened KeyValue
  import opened Messages

  /** What a request line asks for, after trimming and splitting. */
  datatype Request =
    | GetRequest(key: string)
    | PutRequest(key: string, value: string)
    | DelRequest(key: string)
    | Malformed

  /** The handler's result: text written back, store after the request,
      messages sent on the bus. */
  datatype Reply = Reply(response: string, store: Store, published: seq<Message>)

  /** The dispatch on token count and verb. A request is recognised only
      when the trimmed line is exactly the verb, one space, and the
      space-free arguments separated by single spaces. */
  function ParseRequest(line: string): (r: Request)
    ensures r.GetRequest? ==> Token(r.key) && Trim(line) == "GET " + r.key
    ensures r.PutRequest? ==> Token(r.key) && Token(r.value)
                              && Trim(line) == "PUT " + r.key + " " + r.value
    ensures r.DelRequest? ==> Token(r.key) && Trim(line) == "DEL " + r.key
  {
    var parts := Split(Trim(line));
    if |parts| == 2 && parts[0] == "GET" then
      JoinTwo(parts);
      GetRequest(parts[1])
    else if |parts| == 3 && parts[0] == "PUT" then
      JoinThree(parts);
      PutRequest(parts[1], parts[2])
    else if |parts| == 2 && parts[0] == "DEL" then
      JoinTwo(parts);
      DelRequest(parts[1])
    else
      Malformed
  }

  /** Two tokens joined: the verb, a space, the argument. */
  lemma JoinTwo(ts: seq<string>)
    requires |ts| == 2 && |ts[0]| == 3
    ensures Join(ts) == ts[0] + " " + ts[1]
    ensures Join(ts) == [ts[0][0], ts[0][1], ts[0][2], ' '] + ts[1]
  {
    assert ts[1..] == [ts[1]];
    assert ts[0] == [ts[0][0], ts[0][1], ts[0][2]];
  }

  /** Three tokens joined: the verb, a space, two arguments with a space. */
  lemma JoinThree(ts: seq<string>)
    requires |ts| == 3 && |ts[0]| == 3
    ensures Join(ts) == ts[0] + " " + ts[1] + " " + ts[2]
    ensures Join(ts) == [ts[0][0], ts[0][1], ts[0][2], ' '] + ts[1] + " " + ts[2]
  {
    var tail := ts[1..];
    assert tail[1..] == [ts[2]];
    assert Join(tail) == ts[1] + " " + ts[2];
    assert Join(ts) == ts[0] + " " + (ts[1] + " " + ts[2]);
    assert ts[0] == [ts[0][0], ts[0][1], ts[0][2]];
  }

  lemma ParseGet(line: string, k: string)
    requires Token(k)
    ensures ParseRequest(line) == GetRequest(k) <==> Trim(line) == "GET " + k
  {
    if Trim(line) == "GET " + k {
      var ts := ["GET", k];
      JoinTwo(ts);
      SplitJoin(ts);
    }
  }

  lemma ParsePut(line: string, k: string, v: string)
    requires Token(k) && Token(v)
    ensures ParseRequest(line) == PutRequest(k, v) <==> Trim(line) == "PUT " + k + " " + v
  {
    if Trim(line) == "PUT " + k + " " + v {
      var ts := ["PUT", k, v];
      JoinThree(ts);
      SplitJoin(ts);
    }
  }

  lemma ParseDel(line: string, k: string)
    requires Token(k)
    ensures ParseRequest(line) == DelRequest(k) <==> Trim(line) == "DEL " + k
  {
    if Trim(line) == "DEL " + k {
      var ts := ["DEL", k];
      JoinTwo(ts);
      SplitJoin(ts);
    }
  }

  /** A line is malformed exactly when its trimmed text has none of the
      three request shapes, whatever the space-free arguments. */
  lemma ParseMalformed(line: string, k: string, v: string)
    requires Token(k) && Token(v)
    ensures ParseRequest(line) == Malformed ==>
              && Trim(line) != "GET " + k
              && Trim(line) != "PUT " + k + " " + v
              && Trim(line) != "DEL " + k
  {
    ParseGet(line, k);
    ParsePut(line, k, v);
    ParseDel(line, k);
  }

  /** A request a client can write on one line and have read back: no
      argument holds the separator or the line terminator, and the last
      argument ends in a character that `trim` keeps. Leading whitespace
      inside an argument is fine, as `trim` only looks at the line's ends. */
  ghost predicate Sendable(req: Request) {
    match req
    case GetRequest(k) => OnLine(k) && EndsVisible(k)
    case PutRequest(k, v) => OnLine(k) && OnLine(v) && EndsVisible(v)
    case DelRequest(k) => OnLine(k) && EndsVisible(k)
    case Malformed => false
  }

  /** An argument that stays one token on one line. */
  predicate OnLine(x: string) {
    Token(x) && '\n' !in x
  }

  /** A text whose last character is not whitespace. */
  predicate EndsVisible(x: string) {
    x != "" && !IsWhitespace(x[|x| - 1])
  }

  /** The request text a client types, without the line terminator. */
  function Line(req: Request): string
    requires !req.Malformed?
  {
    match req
    case GetRequest(k) => "GET " + k
    case PutRequest(k, v) => "PUT " + k + " " + v
    case DelRequest(k) => "DEL " + k
  }

  /** The request line a client sends, newline-terminated. */
  function Render(req: Request): string
    requires !req.Malformed?
  {
    Line(req) + "\n"
  }

  /** The parser reads back every request a client can send, whatever
      whitespace follows it on the line: the terminator, a carriage return,
      or padding after the last argument. */
  lemma ParseRender(req: Request, pad: string)
    requires Sendable(req) && AllWhitespace(pad)
    ensures ParseRequest(Line(req) + pad) == req
  {
    match req
    case GetRequest(k) =>
      TrimPadded("GET " + k, k, pad);
      ParseGet(Line(req) + pad, k);
    case PutRequest(k, v) =>
      TrimPadded("PUT " + k + " " + v, v, pad);
      ParsePut(Line(req) + pad, k, v);
    case DelRequest(k) =>
      TrimPadded("DEL " + k, k, pad);
      ParseDel(Line(req) + pad, k);
  }

  /** Trailing whitespace is all that `trim` removes from a request whose
      verb starts it and whose last argument ends it. */
  lemma TrimPadded(body: string, last: string, pad: string)
    requires |body| > 0 && !IsWhitespace(body[0])
    requires EndsVisible(last) && |last| <= |body|
    requires body[|body| - |last|..] == last
    requires AllWhitespace(pad)
    ensures Trim(body + pad) == body
  {
    assert body[|body| - 1] == last[|last| - 1];
    assert body + pad == "" + body + pad;
    TrimExact("", body, pad);
  }

  /** `BufRead::read_line`: the input up to and including the first
      newline, or all of it when there is none. The result is a prefix of
      the input with no newline before its last character, and it either
      ends in a newline or is the whole input. */
  function ReadLine(input: string): (line: string)
    ensures line <= input
    ensures forall i :: 0 <= i < |line| - 1 ==> line[i] != '\n'
    ensures |line| == |input| || (|line| > 0 && line[|line| - 1] == '\n')
  {
    if |input| == 0 then []
    else if input[0] == '\n' then "\n"
    else [input[0]] + ReadLine(input[1..])
  }

  /** A line without an inner newline is read whole, and what follows the
      terminator stays on the socket. */
  lemma ReadLineThrough(body: string, rest: string)
    requires '\n' !in body
    ensures ReadLine(body + "\n" + rest) == body + "\n"
  {
    var input := body + "\n" + rest;
    var line := ReadLine(input);
    assert input[|body|] == '\n';
    assert |line| == |body| + 1;
    assert line == input[..|body| + 1] == body + "\n";
  }

  /** The match arms of `handle_connection`. `GET` answers from the store;
      `PUT` and `DEL` change the store directly and publish the command that
      performs the same change; anything else is an error. */
  function Execute(req: Request, store: Store): (r: Reply)
    ensures |r.published| <= 1
    ensures r.published == [] ==> r.store == store
    ensures forall m :: m in r.published ==>
              m.CommandMsg? && Apply(store, m.command) == r.store
    ensures req.Malformed? <==> r.response == "ERROR\n"
  {
    match req
    case GetRequest(k) =>
      var response := if k in store then "OK " + store[k] + "\n" else "NOT FOUND\n";
      assert response[0] != 'E';
      Reply(response, store, [])
    case PutRequest(k, v) =>
      Reply("OK\n", store[k := v], [CommandMsg(Put(k, v))])
    case DelRequest(k) =>
      Reply("OK\n", store - {k}, [CommandMsg(Del(k))])
    case Malformed =>
      Reply("ERROR\n", store, [])
  }

  /** `handle_connection` for one received line. The store changes only
      by the one command published, and a blank line is an error that
      changes nothing. */
  function HandleRequest(line: string, store: Store): (r: Reply)
    ensures r.published == [] ==> r.store == store
    ensures forall m :: m in r.published ==>
              m.CommandMsg? && Apply(store, m.command) == r.store
    ensures Trim(line) == "" ==> r == Reply("ERROR\n", store, [])
  {
    Execute(ParseRequest(line), store)
  }

  /** A sendable request fits on one line. */
  lemma LineHasNoNewline(req: Request)
    requires Sendable(req)
    ensures '\n' !in Line(req)
  {
  }

  /** Without a newline the whole input is one line, and a newline in
      front makes a blank one. */
  lemma ReadLineEnds(input: string)
    ensures '\n' !in input ==> ReadLine(input) == input
    ensures |input| > 0 && input[0] == '\n' ==> Trim(ReadLine(input)) == ""
  {
    var line := ReadLine(input);
    if |input| > 0 && input[0] == '\n' {
      assert line == "\n";
    }
  }

  /** `handle_connection` on what the client wrote to the socket: one line
      is read and handled. */
  function HandleConnection(input: string, store: Store): (r: Reply)
    ensures r.published == [] ==> r.store == store
    ensures forall m :: m in r.published ==>
              m.CommandMsg? && Apply(store, m.command) == r.store
    ensures '\n' !in input ==> r == HandleRequest(input, store)
    ensures |input| > 0 && input[0] == '\n' ==> r == Reply("ERROR\n", store, [])
  {
    ReadLineEnds(input);
    HandleRequest(ReadLine(input), store)
  }

  /** A request a client writes, with any whitespace before the terminator
      and anything after it, is handled as that request. */
  lemma ServeRequest(req: Request, pad: string, rest: string, store: Store)
    requires Sendable(req) && AllWhitespace(pad) && '\n' !in pad
    ensures HandleConnection(Line(req) + pad + "\n" + rest, store) == Execute(req, store)
  {
    var line, tail := Line(req), pad + "\n";
    LineHasNoNewline(req);
    ReadLineThrough(line + pad, rest);
    assert line + pad + "\n" == line + tail;
    WhitespaceAppend(pad, "\n");
    ParseRender(req, tail);
    assert ParseRequest(ReadLine(line + pad + "\n" + rest)) == req;
  }

  /** `GET k` answers with the bound value or `NOT FOUND`, and changes and
      publishes nothing. */
  lemma HandleGet(line: string, store: Store, k: string)
    requires Token(k) && Trim(line) == "GET " + k
    ensures var r := HandleRequest(line, store);
            && r.response == (if k in store then "OK " + store[k] + "\n" else "NOT FOUND\n")
            && r.store == store
            && r.published == []
  {
    ParseGet(line, k);
  }

  /** `PUT k v` answers `OK`, binds `k` to `v` leaving every other key as it
      was, and publishes exactly the `Put` command. */
  lemma HandlePut(line: string, store: Store, k: string, v: string)
    requires Token(k) && Token(v) && Trim(line) == "PUT " + k + " " + v
    ensures var r := HandleRequest(line, store);
            && r.response == "OK\n"
            && Lookup(r.store, k) == Some(v)
            && (forall x :: x != k ==> Lookup(r.store, x) == Lookup(store, x))
            && r.published == [CommandMsg(Put(k, v))]
  {
    ParsePut(line, k, v);
  }

  /** `DEL k` answers `OK`, unbinds `k` leaving every other key as it was,
      and publishes exactly the `Del` command. */
  lemma HandleDel(line: string, store: Store, k: string)
    requires Token(k) && Trim(line) == "DEL " + k
    ensures var r := HandleRequest(line, store);
            && r.response == "OK\n"
            && Lookup(r.store, k) == None
            && (forall x :: x != k ==> Lookup(r.store, x) == Lookup(store, x))
            && r.published == [CommandMsg(Del(k))]
  {
    ParseDel(line, k);
  }

  /** Every other line, including one with a doubled space, gets `ERROR`
      and changes and publishes nothing. */
  lemma HandleOther(line: string, store: Store)
    requires forall k :: Token(k) ==> Trim(line) != "GET " + k && Trim(line) != "DEL " + k
    requires forall k, v :: Token(k) && Token(v) ==> Trim(line) != "PUT " + k + " " + v
    ensures var r := HandleRequest(line, store);
            && r.response == "ERROR\n"
            && r.store == store
            && r.published == []
  {
  }
}
