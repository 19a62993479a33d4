/** The per-browser session of the application and the logout handler. */
module Sessions {

  /** The kinds of values the handlers store in a session. */
  datatype SessionValue = Flag(flag: bool) | Name(name: string) | Id(id: int)

  const LoggedInKey := "logged_in"
  const UsernameKey := "username"
  const UserIdKey := "user_id"

  /** The keys a login sets and a logout clears. */
  const LoginKeys: set<string> := {LoggedInKey, UsernameKey, UserIdKey}

  class Session {
    var entries: map<string, SessionValue>

    constructor (initial: map<string, SessionValue>)
      ensures entries == initial
    {
      entries := initial;
    }

    /** The check protected handlers make before serving a request. */
    predicate HasUser()
      reads this
    {
      UserIdKey in entries
    }

    /** Pops the three login keys, each only if present; every other entry is
        kept as it was, and a session without them is left unchanged, so a
        second logout does nothing. */
    method Logout()
      modifies this
      ensures entries.Keys == old(entries).Keys - LoginKeys
      ensures forall k :: k in entries ==> entries[k] == old(entries)[k]
      ensures !HasUser()
      ensures old(entries).Keys !! LoginKeys ==> entries == old(entries)
    {
      entries := entries - {LoggedInKey};
      entries := entries - {UsernameKey};
      entries := entries - {UserIdKey};
    }
  }
}
