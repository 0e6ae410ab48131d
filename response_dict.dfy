/** The reshaping helper that turns a thread's messages into the response
    envelope: a dict grown in a loop, one list per role. */
module ResponseDict {
  import opened Messages
  import opened Grouping

  /** Walks the messages in order; the first time a role is seen it gets an
      empty list, then the message's first-block text is appended to its
      role's list. Reading that text fails on a message with no content
      block or whose first block is not text, and the failure of the first
      such message is what the caller sees. */
  method ResponseDict(messages: seq<Msg>) returns (r: Result<Dict>)
    ensures r.Ok? <==> AllReadable(messages)
    ensures r.Ok? ==> AllReadable(messages) && r.value == Response(messages)
    ensures r.Err? ==> !AllReadable(messages) && r.error == ErrorOf(messages[FirstUnreadable(messages)])
    ensures messages == [] ==> r == Ok(Dict([], map[]))
  {
    var keys: seq<string> := [];
    var data: map<string, seq<string>> := map[];
    ghost var done: seq<Msg> := [];
    for i := 0 to |messages|
      invariant done == messages[..i]
      invariant AllReadable(done)
      invariant keys == KeyOrder(done)
      invariant data == Group(done)
    {
      var m := messages[i];
      if m.role !in data {
        keys := keys + [m.role];
        data := data[m.role := []];
      }
      if !Readable(m) {
        FirstUnreadableAt(messages, i);
        return Err(ErrorOf(m));
      }
      ResponseSnoc(done, m);
      data := data[m.role := data[m.role] + [TextOf(m)]];
      done := done + [m];
    }
    assert messages[..|messages|] == messages;
    ResponseEmpty();
    return Ok(Dict(keys, data));
  }
}
