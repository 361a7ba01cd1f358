/** The tag expander: one UTM-tagged URL per distribution channel, in the fixed order
    telegram, vk, instagram. */
module Tags {
  import opened Wrappers

  /** The closed set of channels. */
  datatype Channel = Telegram | Vk | Instagram

  const ChannelOrder: seq<Channel> := [Telegram, Vk, Instagram]

  /** The `utm_source` value of a channel. */
  function Source(ch: Channel): string
  {
    match ch
    case Telegram => "telegram"
    case Vk => "vk"
    case Instagram => "instagram"
  }

  /** The `utm_campaign` value of a channel. */
  function Campaign(ch: Channel): string
  {
    match ch
    case Telegram => "our-channel"
    case Vk => "our-public"
    case Instagram => "our-profile"
  }

  /** The query text appended to the clean URL for a channel. */
  function Suffix(ch: Channel): string
  {
    "utm_source=" + Source(ch) + "&utm_medium=social&utm_campaign=" + Campaign(ch)
  }

  /** The list of three tagged URLs built from the clean URL. */
  function Expand(clean: string): (r: seq<string>)
    ensures |r| == 3
    ensures forall i :: 0 <= i < 3 ==> |r[i]| > |clean| && r[i][..|clean|] == clean
  {
    [clean + Suffix(Telegram), clean + Suffix(Vk), clean + Suffix(Instagram)]
  }

  /** The channel whose tags end a tagged URL, read back from the `utm_source` value. */
  function ChannelOf(clean: string, tagged: string): (r: Option<Channel>)
  {
    if |tagged| < |clean| || tagged[..|clean|] != clean then None
    else if tagged[|clean|..] == Suffix(Telegram) then Some(Telegram)
    else if tagged[|clean|..] == Suffix(Vk) then Some(Vk)
    else if tagged[|clean|..] == Suffix(Instagram) then Some(Instagram)
    else None
  }

  /** Exactly three URLs, in the order telegram, vk, instagram: the i-th is the clean
      URL followed by the i-th channel's tags, so each starts with the clean URL, and
      the channel can be read back from it. */
  lemma ExpandSpec(clean: string)
    ensures |Expand(clean)| == 3
    ensures forall i :: 0 <= i < 3 ==>
      && |Expand(clean)[i]| > |clean|
      && Expand(clean)[i][..|clean|] == clean
      && Expand(clean)[i][|clean|..] == Suffix(ChannelOrder[i])
      && ChannelOf(clean, Expand(clean)[i]) == Some(ChannelOrder[i])
  {
  }

  /** The three suffixes differ, at the first letter of the `utm_source` value. */
  lemma SuffixesDiffer()
    ensures Suffix(Telegram)[11] == 't' && Suffix(Vk)[11] == 'v' && Suffix(Instagram)[11] == 'i'
    ensures Suffix(Telegram) != Suffix(Vk) && Suffix(Vk) != Suffix(Instagram)
    ensures Suffix(Telegram) != Suffix(Instagram)
  {
  }

  /** The three tagged URLs are pairwise distinct. */
  lemma ExpandDistinct(clean: string)
    ensures forall i, j :: 0 <= i < j < 3 ==> Expand(clean)[i] != Expand(clean)[j]
  {
    ExpandSpec(clean);
  }
}
