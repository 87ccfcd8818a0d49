/** The application-wide registry: a map of values under prefixed names, whose
    lookups fall back to a default when the stored value is falsy. */
module Registry {
  import opened JsValue

  class Registry {
    const prefix: string
    var store: map<string, Value>

    /** An empty registry with the prefix `"Reg:"`. */
    constructor ()
      ensures prefix == "Reg:" && store == map[]
    {
      prefix := "Reg:";
      store := map[];
    }

    /** The map key of `name`: the prefix followed by the name. */
    function GetKey(name: string): (key: string)
      ensures |key| == |prefix| + |name|
      ensures key[..|prefix|] == prefix && key[|prefix|..] == name
    {
      prefix + name
    }

    /** `store[key] || def`: the stored value when it is truthy, otherwise the
        default; a name never set gives the default. */
    function Get(name: string, def: Value): (r: Value)
      reads this
      ensures GetKey(name) in store && Truthy(store[GetKey(name)]) ==> r == store[GetKey(name)]
      ensures GetKey(name) !in store || !Truthy(store[GetKey(name)]) ==> r == def
    {
      var key := GetKey(name);
      Or(if key in store then store[key] else Undefined, def)
    }

    /** Stores `value` under `name`, replacing what was there; no other name is
        affected. */
    method Set(name: string, value: Value)
      modifies this
      ensures store == old(store)[GetKey(name) := value]
      ensures forall def :: Get(name, def) == Or(value, def)
      ensures forall other, def :: other != name ==> Get(other, def) == old(Get(other, def))
    {
      var key := GetKey(name);
      store := store[key := value];
      forall other, def | other != name ensures Get(other, def) == old(Get(other, def)) {
        GetKeyInjective(other, name);
      }
    }

    /** Different names have different keys. */
    lemma GetKeyInjective(a: string, b: string)
      ensures GetKey(a) == GetKey(b) <==> a == b
    {
    }
  }
}
