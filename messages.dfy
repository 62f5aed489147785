/**
 * Messages and their dual-index collection: every message is reachable by
 * its numeric id and by its name.
 */
module MessageCollection {
  import opened Wrappers

  /** A field of a message or group; its type and constant are out of scope here. */
  datatype Field = Field(name: string, id: int)

  /** A repeating group: its own fields, nested groups and data, in that order. */
  datatype Group = Group(name: string, id: int, fields: seq<Field>, groups: seq<Group>, datas: seq<Data>)

  /** A variable-length data element. */
  datatype Data = Data(name: string, id: int)

  datatype Message = Message(
    name: string,
    description: string,
    id: int,
    fields: seq<Field>,
    groups: seq<Group>,
    datas: seq<Data>)

  /** A lookup key: a message id or a message name. */
  datatype MessageKey = ById(id: int) | ByName(name: string)

  /**
   * The two indexes describe the same messages: each message sits under its
   * own id in one and under its own name in the other, and they are equally
   * large.
   */
  ghost predicate IndexesAgree(byId: map<int, Message>, byName: map<string, Message>)
  {
    && |byId| == |byName|
    && (forall i :: i in byId ==> byId[i].id == i && byId[i].name in byName && byName[byId[i].name] == byId[i])
    && (forall n :: n in byName ==> byName[n].name == n && byName[n].id in byId && byId[byName[n].id] == byName[n])
  }

  /** Writing a message under a fresh id and a fresh name keeps the indexes in agreement. */
  lemma IndexesAgreeAdd(byId: map<int, Message>, byName: map<string, Message>, m: Message)
    requires IndexesAgree(byId, byName) && m.id !in byId && m.name !in byName
    ensures IndexesAgree(byId[m.id := m], byName[m.name := m])
    ensures |byId[m.id := m]| == |byId| + 1
  {
  }

  class Messages {
    var byId: map<int, Message>
    var byName: map<string, Message>

    ghost predicate Valid()
      reads this
    {
      IndexesAgree(byId, byName)
    }

    constructor()
      ensures Valid() && byId == map[] && byName == map[]
    {
      byId := map[];
      byName := map[];
    }

    /**
     * `add`: a message whose id, or else whose name, is already present
     * raises ValueError before either index is written; otherwise the
     * message goes into both.
     */
    method Add(m: Message) returns (r: Outcome)
      requires Valid()
      modifies this
      ensures Valid()
      ensures old(m.id in byId || m.name in byName) ==>
        r == Fail(ValueError) && byId == old(byId) && byName == old(byName)
      ensures old(m.id !in byId && m.name !in byName) ==>
        && r == Pass
        && byId == old(byId)[m.id := m] && byName == old(byName)[m.name := m]
        && |byId| == old(|byId|) + 1
    {
      if m.id in byId {
        return Fail(ValueError);
      }
      if m.name in byName {
        return Fail(ValueError);
      }
      IndexesAgreeAdd(byId, byName, m);
      byId := byId[m.id := m];
      byName := byName[m.name := m];
      return Pass;
    }

    /** `messages[key]`: by name for a string, by id for an integer; KeyError when absent. */
    function GetItem(key: MessageKey): (r: Result<Message>)
      reads this
      requires Valid()
      ensures key.ById? ==> (r.Ok? <==> key.id in byId) && (r.Ok? ==> r.value == byId[key.id] && r.value.id == key.id)
      ensures key.ByName? ==> (r.Ok? <==> key.name in byName) && (r.Ok? ==> r.value == byName[key.name] && r.value.name == key.name)
      ensures r.Err? ==> r.error == KeyError
    {
      match key
      case ByName(name) => if name in byName then Ok(byName[name]) else Err(KeyError)
      case ById(id) => if id in byId then Ok(byId[id]) else Err(KeyError)
    }

    /** `messages.get(key)`: the same lookup, with None in place of the KeyError. */
    function Get(key: MessageKey): (r: Option<Message>)
      reads this
      requires Valid()
      ensures r.Some? <==> GetItem(key).Ok?
      ensures r.Some? ==> r.value == GetItem(key).value
    {
      match key
      case ByName(name) => if name in byName then Some(byName[name]) else None
      case ById(id) => if id in byId then Some(byId[id]) else None
    }

    /** `len(messages)`: the size of the id index, which is also the size of the name index. */
    function Len(): (n: nat)
      reads this
      requires Valid()
      ensures n == |byId| == |byName|
    {
      |byId|
    }
  }

  /** Whichever key finds a message, the other key of that message finds the same message. */
  lemma LookupsAgree(ms: Messages, m: Message)
    requires ms.Valid()
    ensures ms.GetItem(ById(m.id)) == Ok(m) <==> ms.GetItem(ByName(m.name)) == Ok(m)
  {
  }
}
