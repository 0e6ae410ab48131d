/** Thread messages as the assistant service returns them, reduced to the two
    things the response reshaping reads: the author's role and the content
    blocks, of which only the first block's text is ever looked at. */
module Messages {

  /** One content block of a message. Only a text block has a text value;
      image and other blocks carry something else. */
  datatype Part = Text(value: string) | NonText(kind: string)

  /** A message of a conversation thread: its role ("user", "assistant", ...)
      and its content blocks. Ids, timestamps and attachments are dropped. */
  datatype Msg = Msg(role: string, content: seq<Part>)

  /** The two ways reading `m.content[0].text.value` can fail: there is no
      first block (an index error), or the first block has no text (an
      attribute error). */
  datatype ReadError = IndexError | AttributeError

  datatype Result<T> = Ok(value: T) | Err(error: ReadError)

  /** The first content block exists and is a text block. */
  predicate Readable(m: Msg) {
    |m.content| > 0 && m.content[0].Text?
  }

  /** The text the reshaping keeps of a message: that of its first block. */
  function TextOf(m: Msg): string
    requires Readable(m)
  {
    m.content[0].value
  }

  /** Which error reading the first block's text raises. */
  function ErrorOf(m: Msg): ReadError
    requires !Readable(m)
  {
    if |m.content| == 0 then IndexError else AttributeError
  }

  predicate AllReadable(msgs: seq<Msg>) {
    forall i :: 0 <= i < |msgs| ==> Readable(msgs[i])
  }

  /** The index of the first message whose text cannot be read. */
  function FirstUnreadable(msgs: seq<Msg>): (i: nat)
    requires !AllReadable(msgs)
    ensures i < |msgs| && !Readable(msgs[i])
  {
    if !Readable(msgs[0]) then 0
    else
      assert !AllReadable(msgs[1..]) by {
        var j :| 0 <= j < |msgs| && !Readable(msgs[j]);
        assert msgs[1..][j - 1] == msgs[j];
      }
      1 + FirstUnreadable(msgs[1..])
  }

  /** A message that cannot be read, preceded only by readable ones, is the
      first unreadable message. */
  lemma {:induction false} FirstUnreadableAt(msgs: seq<Msg>, i: nat)
    requires i < |msgs| && !Readable(msgs[i])
    requires AllReadable(msgs[..i])
    ensures !AllReadable(msgs) && FirstUnreadable(msgs) == i
  {
    if i > 0 {
      assert Readable(msgs[..i][0]);
      assert msgs[1..][..i - 1] == msgs[..i][1..];
      FirstUnreadableAt(msgs[1..], i - 1);
    }
  }
}
