/** Values shared by the slot memory, the rule engine and the planner:
    the optional wrapper that stands for Python's None, the typed slot
    values, and the slot dictionary itself. */
module Values {

  datatype Option<+T> = None | Some(value: T) {
    function GetOr(default: T): T {
      match this
      case Some(v) => v
      case None => default
    }
  }

  /** A slot value as the NLU collaborator delivers it: an integer (age),
      a boolean (the yes/no facts) or a string (gender). */
  datatype Value = IntVal(i: int) | BoolVal(b: bool) | StrVal(s: string)

  /** The slot dictionary: slot name to value, None meaning "not known yet". */
  type Slots = map<string, Option<Value>>

  /** `slots.get(name)` in the source: None both for an absent key and for a
      stored None. */
  function Get(slots: Slots, name: string): Option<Value> {
    if name in slots then slots[name] else None
  }

  /** `slots.get(name) is not None`. */
  predicate Known(slots: Slots, name: string) {
    Get(slots, name).Some?
  }
}
