/** Messages in a send queue, and the bytes that they make up. */
module Messages {
  import opened Common

  /** A message as its sender handed it over; `notify` says that a completion callback came with it. */
  datatype Message = Message(bytes: seq<byte>, notify: bool)

  ghost function BytesOf(messages: seq<Message>): seq<byte> {
    if messages == [] then [] else messages[0].bytes + BytesOf(messages[1..])
  }

  lemma {:induction false} BytesOfAppend(left: seq<Message>, right: seq<Message>)
    ensures BytesOf(left + right) == BytesOf(left) + BytesOf(right)
  {
    if left == [] {
      assert left + right == right;
    } else {
      BytesOfAppend(left[1..], right);
      assert (left + right)[1..] == left[1..] + right;
      Associative(left[0].bytes, BytesOf(left[1..]), BytesOf(right));
    }
  }

  lemma BytesOfSnoc(messages: seq<Message>, m: Message)
    ensures BytesOf(messages + [m]) == BytesOf(messages) + m.bytes
  {
    BytesOfAppend(messages, [m]);
    assert [m][1..] == [];
  }
}
