/**
 * The game's save system: an in-memory game-state record and the browser's
 * durable string-keyed table (`localStorage`), with saving to and loading
 * from named slots. Each slot is stored under the key `between_<slot>` as
 * the text `Encode` produces.
 */
module Save {

  import opened Wrappers
  import opened Json

  /** The fixed namespace prefix of every save key. */
  const Prefix: string := "between_"

  /** The slot loaded at start-up. */
  const AutosaveSlot: string := "autosave"

  /** The durable key under which `slot` is stored. */
  function SlotKey(slot: string): (key: string)
    ensures |key| == |Prefix| + |slot|
    ensures key[..|Prefix|] == Prefix && key[|Prefix|..] == slot
  {
    Prefix + slot
  }

  /** Distinct slots are stored under distinct keys. */
  lemma LemmaSlotKeyInjective(a: string, b: string)
    ensures SlotKey(a) == SlotKey(b) <==> a == b
  {
    if SlotKey(a) == SlotKey(b) {
      assert a == SlotKey(a)[|Prefix|..];
    }
  }

  /** The game-state record a new session starts from. */
  function Defaults(): Record
  {
    map[
      "trust" := IntV(50),
      "romance" := IntV(0),
      "suspicion" := IntV(10),
      "currentPassage" := StrV("Start"),
      "unlockedGallery" := ListV([])
    ]
  }

  /**
   * The record that loading `slot` from `storage` installs, or None when the
   * load fails: the key is absent, holds the empty text, or does not parse.
   */
  function Snapshot(storage: map<string, string>, slot: string): Option<Record>
  {
    var key := SlotKey(slot);
    if key !in storage || storage[key] == "" then None else Decode(storage[key])
  }

  /** A slot that was never written, or holds the empty text, loads nothing. */
  lemma LemmaMissingSlot(storage: map<string, string>, slot: string)
    requires SlotKey(slot) !in storage || storage[SlotKey(slot)] == ""
    ensures Snapshot(storage, slot) == None
  {
  }

  /** A slot just written with the text of `g` loads exactly `g`. */
  lemma LemmaSaveThenLoad(storage: map<string, string>, slot: string, g: Record)
    ensures Snapshot(storage[SlotKey(slot) := Encode(g)], slot) == Some(g)
  {
    LemmaRoundTrip(g);
  }

  /** Writing one slot does not change what any other slot loads. */
  lemma LemmaSlotIsolation(storage: map<string, string>, a: string, b: string, g: Record)
    requires a != b
    ensures Snapshot(storage[SlotKey(a) := Encode(g)], b) == Snapshot(storage, b)
  {
    LemmaSlotKeyInjective(a, b);
  }

  /** A slot holding the text of a record cut short by one character loads nothing. */
  lemma LemmaTruncatedSlot(storage: map<string, string>, slot: string, g: Record)
    ensures Snapshot(storage[SlotKey(slot) := Encode(g)[..|Encode(g)| - 1]], slot) == None
  {
    LemmaCutShortRejected(g);
  }

  /** Saving the same record twice leaves the same table as saving it once. */
  lemma LemmaSaveTwice(storage: map<string, string>, slot: string, g: Record)
    ensures storage[SlotKey(slot) := Encode(g)][SlotKey(slot) := Encode(g)]
         == storage[SlotKey(slot) := Encode(g)]
    ensures Snapshot(storage[SlotKey(slot) := Encode(g)][SlotKey(slot) := Encode(g)], slot) == Some(g)
  {
    LemmaSaveThenLoad(storage, slot, g);
  }

  class SaveSystem {
    /** The current game-state variables. */
    var gameState: Record
    /** The durable key-value table (`localStorage`). */
    var storage: map<string, string>

    /** A session over the durable table `storage0`, holding the default record. */
    constructor (storage0: map<string, string>)
      ensures gameState == Defaults() && storage == storage0
    {
      gameState := Defaults();
      storage := storage0;
    }

    /** Start-up: loads the autosave slot, if it loads, and ignores the outcome. */
    method Init()
      modifies this
      ensures storage == old(storage)
      ensures Snapshot(storage, AutosaveSlot).Some? ==> gameState == Snapshot(storage, AutosaveSlot).value
      ensures Snapshot(storage, AutosaveSlot).None? ==> gameState == old(gameState)
    {
      var _ := LoadGame(AutosaveSlot);
    }

    /**
     * Writes the text of the current record under the slot's key. The durable
     * store may refuse the write (its quota exceeded); the failure is swallowed
     * and the table is left as it was. `written` tells proofs, not callers,
     * which happened.
     */
    method SaveGame(slot: string) returns (ghost written: bool)
      modifies this
      ensures gameState == old(gameState)
      ensures written ==> storage == old(storage)[SlotKey(slot) := Encode(gameState)]
      ensures !written ==> storage == old(storage)
    {
      var stateJson := Encode(gameState);
      var accepted: bool :| true;
      if accepted {
        storage := storage[SlotKey(slot) := stateJson];
      }
      written := accepted;
    }

    /**
     * Replaces the whole record by the one stored for `slot` and answers true;
     * answers false and changes nothing when the slot is absent, empty or
     * does not parse.
     */
    method LoadGame(slot: string) returns (loaded: bool)
      modifies this
      ensures storage == old(storage)
      ensures loaded <==> Snapshot(storage, slot).Some?
      ensures loaded ==> gameState == Snapshot(storage, slot).value
      ensures !loaded ==> gameState == old(gameState)
    {
      var key := SlotKey(slot);
      if key in storage && storage[key] != "" {
        match Decode(storage[key]) {
          case Some(parsed) =>
            gameState := parsed;
            loaded := true;
          case None =>
            loaded := false;
        }
      } else {
        loaded := false;
      }
    }

    /** Overwrites a variable that the record already has; ignores any other key. */
    method SetVariable(key: string, value: Value)
      modifies this
      ensures storage == old(storage)
      ensures gameState.Keys == old(gameState).Keys
      ensures key in old(gameState) ==> gameState[key] == value
      ensures forall k :: k in gameState && k != key ==> gameState[k] == old(gameState)[k]
      ensures key !in old(gameState) ==> gameState == old(gameState)
    {
      if key in gameState {
        gameState := gameState[key := value];
      }
    }
  }

  /** A save followed, with no write in between, by a load restores the saved record. */
  method SaveThenLoad(sys: SaveSystem, slot: string) returns (ghost written: bool, loaded: bool)
    modifies sys
    ensures written ==> sys.storage == old(sys.storage)[SlotKey(slot) := Encode(old(sys.gameState))]
    ensures !written ==> sys.storage == old(sys.storage)
    ensures written ==> loaded && sys.gameState == old(sys.gameState)
    ensures !written ==> loaded == Snapshot(old(sys.storage), slot).Some?
    ensures !written && loaded ==> sys.gameState == Snapshot(old(sys.storage), slot).value
    ensures !loaded ==> sys.gameState == old(sys.gameState)
  {
    written := sys.SaveGame(slot);
    if written {
      LemmaSaveThenLoad(old(sys.storage), slot, sys.gameState);
    }
    loaded := sys.LoadGame(slot);
  }

  /**
   * Start-up over a table whose autosave does not load (absent, empty or
   * unreadable) leaves exactly the default variables.
   */
  method FreshStart(storage0: map<string, string>) returns (state: Record)
    requires Snapshot(storage0, AutosaveSlot) == None
    ensures state.Keys == {"trust", "romance", "suspicion", "currentPassage", "unlockedGallery"}
    ensures state["trust"] == IntV(50) && state["romance"] == IntV(0) && state["suspicion"] == IntV(10)
    ensures state["currentPassage"] == StrV("Start") && state["unlockedGallery"] == ListV([])
  {
    var sys := new SaveSystem(storage0);
    sys.Init();
    state := sys.gameState;
  }

  /**
   * Two saves of the same slot in a row: if either write was accepted, the
   * table is the old one with the slot's key set to the record's text, once;
   * if both were refused, the table is unchanged.
   */
  method SaveTwice(sys: SaveSystem, slot: string) returns (ghost w1: bool, ghost w2: bool)
    modifies sys
    ensures sys.gameState == old(sys.gameState)
    ensures w1 || w2 ==> sys.storage == old(sys.storage)[SlotKey(slot) := Encode(old(sys.gameState))]
    ensures !(w1 || w2) ==> sys.storage == old(sys.storage)
    ensures w1 || w2 ==> Snapshot(sys.storage, slot) == Some(sys.gameState)
  {
    w1 := sys.SaveGame(slot);
    w2 := sys.SaveGame(slot);
    LemmaSaveTwice(old(sys.storage), slot, sys.gameState);
  }

  /**
   * Start-up, trust := 75, save the autosave slot, trust := 10, load the
   * autosave slot: trust is 75 again, unless the save was refused.
   */
  method AutosaveScenario(storage0: map<string, string>) returns (ghost saved: bool, loaded: bool, trust: Value)
    requires Snapshot(storage0, AutosaveSlot) == None
    ensures loaded ==> trust == IntV(75)
    ensures !loaded ==> trust == IntV(10)
    ensures loaded == saved
  {
    var sys := new SaveSystem(storage0);
    sys.Init();
    sys.SetVariable("trust", IntV(75));
    saved := sys.SaveGame(AutosaveSlot);
    if saved {
      LemmaSaveThenLoad(storage0, AutosaveSlot, sys.gameState);
    }
    sys.SetVariable("trust", IntV(10));
    loaded := sys.LoadGame(AutosaveSlot);
    trust := sys.gameState["trust"];
  }

  /**
   * The same sequence over a table whose autosave loads and has a trust
   * variable: the load succeeds, and trust is 75 when the save was accepted
   * and the autosave's own trust value when it was refused.
   */
  method ResumeScenario(storage0: map<string, string>) returns (ghost saved: bool, loaded: bool, trust: Value)
    requires Snapshot(storage0, AutosaveSlot).Some? && "trust" in Snapshot(storage0, AutosaveSlot).value
    ensures loaded
    ensures saved ==> trust == IntV(75)
    ensures !saved ==> trust == Snapshot(storage0, AutosaveSlot).value["trust"]
  {
    var sys := new SaveSystem(storage0);
    sys.Init();
    sys.SetVariable("trust", IntV(75));
    saved := sys.SaveGame(AutosaveSlot);
    if saved {
      LemmaSaveThenLoad(storage0, AutosaveSlot, sys.gameState);
    }
    sys.SetVariable("trust", IntV(10));
    loaded := sys.LoadGame(AutosaveSlot);
    trust := sys.gameState["trust"];
  }
}
