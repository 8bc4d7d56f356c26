/** NUL-terminated text in a character buffer. */
module CStrings {
  /** The text of a NUL-terminated buffer. */
  function TextOf(buffer: seq<char>): string {
    if buffer == [] || buffer[0] == '\0' then "" else [buffer[0]] + TextOf(buffer[1..])
  }

  lemma {:induction false} TextUpTo(buffer: seq<char>, n: nat)
    requires n < |buffer| && buffer[n] == '\0' && '\0' !in buffer[..n]
    ensures TextOf(buffer) == buffer[..n]
  {
    if n > 0 {
      assert buffer[0] == buffer[..n][0];
      assert buffer[1..][..n - 1] == buffer[..n][1..];
      TextUpTo(buffer[1..], n - 1);
      assert buffer[..n] == [buffer[0]] + buffer[1..][..n - 1];
    }
  }

  lemma {:induction false} TextEnds(buffer: seq<char>)
    requires '\0' in buffer
    ensures var n := |TextOf(buffer)|;
            n < |buffer| && buffer[n] == '\0' && '\0' !in buffer[..n] && TextOf(buffer) == buffer[..n]
  {
    if buffer[0] != '\0' {
      assert buffer == [buffer[0]] + buffer[1..];
      TextEnds(buffer[1..]);
      var n := |TextOf(buffer)|;
      assert buffer[..n] == [buffer[0]] + buffer[1..][..n - 1];
    }
  }

  /** Writing a NUL into a text cuts it there. */
  lemma CutAt(buffer: seq<char>, at: nat)
    requires '\0' in buffer && at <= |TextOf(buffer)|
    ensures at < |buffer| && TextOf(buffer[at := '\0']) == TextOf(buffer)[..at]
  {
    TextEnds(buffer);
    TextUpTo(buffer[at := '\0'], at);
  }
}
