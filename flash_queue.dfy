/** The flash-message queue kept in the session state: `flash` queues a message,
    `flash_render` shows the queued messages in order and, by default, empties the queue. */
module FlashQueue {
  import opened Wrappers

  /** The optional button of a message, as the dictionary the caller passed. */
  datatype ButtonSpec = ButtonSpec(fields: map<string, string>)

  /** A queued message: its kind (`k`), its text (`t`) and its button (`b`). */
  datatype Message = Message(kind: string, text: string, button: Option<ButtonSpec>)

  /** The message `flash` queues: a missing or empty kind becomes `info`, a missing text
      the empty text; the button is kept as given. */
  function NewMessage(kind: Option<string>, text: Option<string>, button: Option<ButtonSpec>): (m: Message)
    ensures m.kind != []
    ensures m.kind == (if kind.Some? && kind.value != [] then kind.value else "info")
    ensures m.text == text.GetOr("")
    ensures m.button == button
  {
    var k := if kind.None? || kind.value == [] then "info" else kind.value;
    var t := if text.None? || text.value == [] then "" else text.value;
    Message(k, t, button)
  }

  /** The session's `_flash` list; a missing entry is the empty queue. */
  class MessageQueue {
    var queue: seq<Message>

    constructor ()
      ensures queue == []
    {
      queue := [];
    }

    /** `flash`: exactly one message is added, at the end; earlier messages are kept. */
    method Flash(kind: Option<string>, text: Option<string>, button: Option<ButtonSpec>)
      modifies this
      ensures queue == old(queue) + [NewMessage(kind, text, button)]
    {
      queue := queue + [NewMessage(kind, text, button)];
    }

    /** `flash_render`: the banners shown are the queued messages in insertion order; the
        queue is emptied when `clear` is set and left as it was otherwise. */
    method Render(clear: bool) returns (shown: seq<Message>)
      modifies this
      ensures shown == old(queue)
      ensures queue == if clear then [] else old(queue)
    {
      shown := [];
      for i := 0 to |queue|
        invariant shown == queue[..i]
      {
        shown := shown + [queue[i]];
      }
      assert queue[..|queue|] == queue;
      if clear {
        queue := [];
      }
    }
  }
}
