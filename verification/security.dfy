/** The pass key kept for pairing: a global that starts at 1307, is replaced by
    every key the stack reports through onPassKeyNotify, and is handed back on
    every onPassKeyRequest. */
module Security {
  import opened HidTypes

  /** Initial value of the global passKey. */
  const DefaultPassKey: u32 := 1307

  /** The key after a history of notified keys: the last one notified, or the
      default when none was. */
  function PassKeyAfter(notified: seq<u32>): (key: u32)
    ensures notified == [] ==> key == DefaultPassKey
    ensures notified != [] ==> key in notified
  {
    if notified == [] then DefaultPassKey else notified[|notified| - 1]
  }

  /** A request after a notify returns the notified key, however many keys
      were notified before it and whatever the default is. */
  lemma LatestNotifyWins(earlier: seq<u32>, key: u32, later: seq<u32>)
    ensures PassKeyAfter(earlier + [key] + later) == (if later == [] then key else PassKeyAfter(later))
  {
  }

  /** The security callbacks together with the global passKey they use. */
  class SecurityCallbacks {
    var passKey: u32
    ghost var notified: seq<u32>

    ghost predicate Valid()
      reads this
    {
      passKey == PassKeyAfter(notified)
    }

    constructor()
      ensures Valid() && notified == [] && passKey == DefaultPassKey
    {
      passKey := DefaultPassKey;
      notified := [];
    }

    /** The stack reports the key to show: it replaces the stored key. */
    method OnPassKeyNotify(key: u32)
      requires Valid()
      modifies this
      ensures Valid()
      ensures notified == old(notified) + [key]
      ensures passKey == key
    {
      passKey := key;
      notified := notified + [key];
    }

    /** The stack asks for the key: the stored one is returned (the delay
        before returning is left out). */
    method OnPassKeyRequest() returns (key: u32)
      requires Valid()
      ensures key == PassKeyAfter(notified)
      ensures notified == [] ==> key == DefaultPassKey
    {
      key := passKey;
    }
  }
}
