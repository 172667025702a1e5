/** The provider registry of services/aiFactory.ts: a fixed table of model
    clients keyed by id, and a module-level `activeId` that a guarded setter
    moves between the registered ids. */
module AiFactory {
  import opened Wrappers

  /** A registered client. `GeminiService`'s constructor takes no
      parameters, so the id, name and model passed to it are dropped and
      both Gemini entries are the same kind of object; `GptService` carries
      its own name and id. */
  datatype Service = GeminiService | GptService(name: string, id: string)

  /** The `services` record, with its keys in the order they are written. */
  const ServiceIds: seq<string> := ["gemini-pro", "gemini-flash", "gpt-4o"]

  const Services: map<string, Service> := map[
    "gemini-pro" := GeminiService,
    "gemini-flash" := GeminiService,
    "gpt-4o" := GptService("GPT-4o", "gpt-4o")]

  const DefaultId: string := "gemini-pro"

  /** The written key order lists each registered id exactly once. */
  lemma ServiceIdsAreTheKeys()
    ensures forall id :: id in ServiceIds <==> id in Services
    ensures forall i, j :: 0 <= i < j < |ServiceIds| ==> ServiceIds[i] != ServiceIds[j]
  {
  }

  // ------------------------------------------------- the setter's guard

  /** The names every plain object inherits from `Object.prototype`; each
      reads as a function or an object, so `services[id]` is truthy for it. */
  const InheritedNames: set<string> := {
    "constructor", "hasOwnProperty", "isPrototypeOf", "propertyIsEnumerable",
    "toLocaleString", "toString", "valueOf", "__proto__",
    "__defineGetter__", "__defineSetter__", "__lookupGetter__", "__lookupSetter__"}

  /** The setter's guard as written: the id is an own key of the registry or
      a name every object inherits. */
  predicate TruthyLookup(id: string) {
    id in Services || id in InheritedNames
  }

  /** `setActiveService` as written. */
  function NextActiveAsWritten(current: string, id: string): string {
    if TruthyLookup(id) then id else current
  }

  /** As written, the setter accepts an inherited name, after which the
      active id is not a registered service and `getActiveService()`
      returns `Object.prototype.toString` rather than a client. */
  lemma SetterAcceptsInheritedName()
    ensures NextActiveAsWritten(DefaultId, "toString") == "toString"
    ensures NextActiveAsWritten(DefaultId, "toString") !in Services
  {
  }

  /** `setActiveService` as intended: only a registered id is accepted. */
  function NextActive(current: string, id: string): (next: string)
    ensures id in Services ==> next == id
    ensures id !in Services ==> next == current
  {
    if id in Services then id else current
  }

  /** The active id stays registered whatever the setter is given. */
  lemma NextActiveKeepsRegistered(current: string, id: string)
    requires current in Services
    ensures NextActive(current, id) in Services
  {
  }

  /** Setting the same id twice is setting it once. */
  lemma NextActiveIdempotent(current: string, id: string)
    ensures NextActive(NextActive(current, id), id) == NextActive(current, id)
  {
  }

  /** The two setters agree on every id that is not an inherited name. */
  lemma NextActiveAgrees(current: string, id: string)
    requires id !in InheritedNames
    ensures NextActiveAsWritten(current, id) == NextActive(current, id)
  {
  }

  // ------------------------------------------------------------ factory

  /** The module state: the active id. */
  class Factory {
    var activeId: string

    ghost predicate Valid()
      reads this
    {
      activeId in Services
    }

    constructor()
      ensures activeId == DefaultId && Valid()
    {
      activeId := DefaultId;
    }

    /** `getAvailableServices`: the registered clients, in key order. */
    method GetAvailableServices() returns (all: seq<Service>)
      ensures |all| == |ServiceIds|
      ensures forall k :: 0 <= k < |all| ==> all[k] == Services[ServiceIds[k]]
    {
      all := seq(|ServiceIds|, k requires 0 <= k < |ServiceIds| => Services[ServiceIds[k]]);
    }

    /** `getActiveService`: the client under the active id (`undefined`,
        here `None`, for an id that is not a key). */
    method GetActiveService() returns (s: Option<Service>)
      ensures activeId in Services ==> s == Some(Services[activeId])
      ensures activeId !in Services ==> s == None
      ensures Valid() ==> s.Some?
    {
      if activeId in Services {
        s := Some(Services[activeId]);
      } else {
        s := None;
      }
    }

    /** `setActiveService`, with the guard as intended. */
    method SetActiveService(id: string)
      modifies this
      ensures activeId == NextActive(old(activeId), id)
      ensures old(Valid()) ==> Valid()
    {
      if id in Services {
        activeId := id;
      }
    }

    /** `getActiveId`. */
    method GetActiveId() returns (id: string)
      ensures id == activeId
    {
      id := activeId;
    }
  }
}
