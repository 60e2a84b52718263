/** `getMaxSize` (index.ts): the number of custom emoji slots a server has
    at each boost tier. */
module EmojiLimit {

  /** The slots of a server with no boost tier, and of any tier the table
      does not name. */
  const DefaultLimit := 50

  /** The boost tiers with more than the default number of slots. */
  const TierLimits: map<int, nat> := map[1 := 100, 2 := 150, 3 := 250]

  /** `getMaxSize(serverTier)`: tiers 1, 2 and 3 have 100, 150 and 250
      slots; every other value falls back to 50. */
  function GetMaxSize(serverTier: int): (r: nat)
    ensures serverTier in TierLimits ==> r == TierLimits[serverTier]
    ensures serverTier !in TierLimits ==> r == DefaultLimit
    ensures r >= DefaultLimit
  {
    match serverTier
    case 1 => 100
    case 2 => 150
    case 3 => 250
    case _ => DefaultLimit
  }

  /** A higher tier never has fewer slots, and each named tier has strictly
      more than the one below it. */
  lemma MaxSizeGrowsWithTier(a: int, b: int)
    requires 0 <= a < b <= 3
    ensures GetMaxSize(a) < GetMaxSize(b)
  {
  }

  /** `server_info` and the system prompt call the emoji slots full once
      the server's emoji count reaches the limit of its tier. */
  function EmojiSlotsFull(emojiCount: nat, serverTier: int): (full: bool)
    ensures serverTier in TierLimits ==> (full <==> emojiCount >= TierLimits[serverTier])
    ensures serverTier !in TierLimits ==> (full <==> emojiCount >= DefaultLimit)
    ensures emojiCount < DefaultLimit ==> !full
    ensures emojiCount >= 250 ==> full
  {
    emojiCount >= GetMaxSize(serverTier)
  }

  lemma SlotsFullAtDefault(emojiCount: nat, serverTier: int)
    requires serverTier < 1 || serverTier > 3
    ensures EmojiSlotsFull(emojiCount, serverTier) <==> emojiCount >= 50
  {
  }
}
