/** The link check at the top of `handle_message`: the message text is
    stripped and must mention one of the two YouTube host names. */
module Links {
  import opened Strings

  const LongHost := "youtube.com"
  const ShortHost := "youtu.be"

  /** Neither host name contains whitespace. */
  lemma HostsHaveNoSpace()
    ensures NoneIn(LongHost, Whitespace) && NoneIn(ShortHost, Whitespace)
  {
  }

  /** Whether a message is taken as a YouTube link. Because neither host name
      contains whitespace, this is exactly whether either name occurs anywhere
      in the raw message text. */
  function Accepts(text: string): (b: bool)
    ensures b <==> (exists i :: OccursAt(text, LongHost, i)) || (exists i :: OccursAt(text, ShortHost, i))
  {
    var url := Strip(text);
    HostsHaveNoSpace();
    ContainsStripped(text, LongHost, Whitespace);
    ContainsStripped(text, ShortHost, Whitespace);
    Contains(url, LongHost) || Contains(url, ShortHost)
  }
}
