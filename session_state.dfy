/** The host's session store (`streamlit.session_state`): a mutable mapping
    from keys to arbitrary values that the package reads and writes in place. */
module SessionStore {
  import opened Values

  class SessionState {
    var entries: map<Value, Value>

    constructor (initial: map<Value, Value>)
      ensures entries == initial
    {
      entries := initial;
    }

    /** `key in session_state` */
    predicate Contains(key: Value)
      reads this
    {
      key in entries
    }

    /** `session_state[key]`, which the callers only read for a present key */
    method Get(key: Value) returns (v: Value)
      requires key in entries
      ensures v == entries[key]
    {
      v := entries[key];
    }

    /** `session_state[key] = v` */
    method Set(key: Value, v: Value)
      modifies this
      ensures entries == old(entries)[key := v]
    {
      entries := entries[key := v];
    }

    /** `session_state.pop(key, default)`: removes the entry if there is one
        and never fails when there is none. */
    method Pop(key: Value, default: Value) returns (v: Value)
      modifies this
      ensures entries == old(entries) - {key}
      ensures v == if key in old(entries) then old(entries)[key] else default
    {
      v := if key in entries then entries[key] else default;
      entries := entries - {key};
    }
  }
}
