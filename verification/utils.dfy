/**
 * The key-state table of src/utils.rs: key name to "held". Key names are
 * the SDL key-code names ("W", "Space", "C", ...).
 */
module Utils {
  import opened Options

  type Keys = map<string, bool>

  function Get(keys: Keys, name: string): Option<bool> {
    if name in keys then Some(keys[name]) else None
  }

  /** A key reads as pressed exactly when it is in the table with value true. */
  function IsKeyPressed(keys: Keys, name: string): (pressed: bool)
    ensures pressed <==> name in keys && keys[name]
  {
    name in keys && Get(keys, name) == Some(true)
  }

  /**
   * Record a key event. A key seen for the first time is inserted as held,
   * whatever `state` says; a known key takes `state`. No key is removed and
   * no other entry changes.
   */
  function HandleKey(keys: Keys, name: string, state: bool): (r: Keys)
    ensures r.Keys == keys.Keys + {name}
    ensures r[name] == (name !in keys || state)
    ensures forall k :: k in keys && k != name ==> r[k] == keys[k]
  {
    if name !in keys then keys[name := true]
    else keys[name := state]
  }

  function KeyDown(keys: Keys, name: string): (r: Keys)
    ensures IsKeyPressed(r, name)
    ensures r.Keys == keys.Keys + {name}
    ensures forall k :: k in keys && k != name ==> r[k] == keys[k]
  {
    HandleKey(keys, name, true)
  }

  /** Releasing a known key clears it; releasing an unknown key registers it as held. */
  function KeyUp(keys: Keys, name: string): (r: Keys)
    ensures name in keys ==> !IsKeyPressed(r, name)
    ensures name !in keys ==> IsKeyPressed(r, name)
    ensures r.Keys == keys.Keys + {name}
    ensures forall k :: k in keys && k != name ==> r[k] == keys[k]
  {
    HandleKey(keys, name, false)
  }

  /** Releasing a key twice is the same as releasing it once, even for a key the table did not know. */
  lemma KeyUpIdempotent(keys: Keys, name: string)
    ensures name in keys ==> KeyUp(KeyUp(keys, name), name) == KeyUp(keys, name)
    ensures name !in keys ==> !IsKeyPressed(KeyUp(KeyUp(keys, name), name), name)
  {
  }

  /** A press followed by a release leaves the key released, whether or not the table knew it. */
  lemma PressThenRelease(keys: Keys, name: string)
    ensures !IsKeyPressed(KeyUp(KeyDown(keys, name), name), name)
    ensures KeyUp(KeyDown(keys, name), name) == keys[name := false]
  {
  }
}
