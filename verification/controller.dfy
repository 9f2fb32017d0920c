/** The `adyax_ws` endpoint: request validation and error reporting over an
    abstract node storage. Each handler takes the storage and the parts of
    the request it reads, and returns the storage afterwards together with
    the JSON response. */
module Controller {
  import opened Wrappers
  import Decimal
  import opened Json
  import Php
  import opened Exceptions

  // Messages, untranslated.
  const InvalidIdMessage := "Please, provide a valid node id."
  const NotFoundMessage := "Node does not exists."
  const InvalidJsonMessage := "Please, provide a valid json data."
  const MissingFieldsMessage := "Please, provide required fields: title, type and body."
  const SavedMessage := "Node successfully saved."
  const UpdatedMessage := "Node successfully updated."
  const DeletedMessage := "Node successfully deleted."

  /** The only fields the API reads or writes. */
  const RequiredFields: set<string> := {"title", "type", "body"}

  type NodeId = nat

  /** A node: its id once saved, and its field values by field name. */
  datatype Node = Node(nid: Option<NodeId>, fields: map<string, Value>)

  /** The node storage: saved nodes by id, and the serial id the next new
      node receives. */
  datatype Store = Store(nodes: map<NodeId, Node>, nextId: NodeId)

  /** Ids are handed out from 1 upwards and every node is filed under its own id. */
  ghost predicate Valid(s: Store) {
    && 1 <= s.nextId
    && forall k :: k in s.nodes ==> 1 <= k < s.nextId && s.nodes[k].nid == Some(k)
  }

  /** The body of a JSON response. */
  datatype Response =
    | Errors(errors: seq<string>)             // {"errors": [...]}
    | NodeData(node: Node)                    // the normalized node
    | Created(message: string, nid: NodeId)   // {"message": ..., "nid": ...}
    | Done(message: string)                   // {"message": ...}

  /** The storage after a request, and the response sent back. */
  datatype Reply = Reply(store: Store, response: Response)

  // ---------------------------------------------------------------------
  // The storage, reduced to map operations.
  // ---------------------------------------------------------------------

  /** `load($id)` with the id as it arrives in the query string: only the
      id written as a canonical numeral names a stored node. */
  function Load(s: Store, id: string): (r: Option<Node>)
    ensures r.Some? <==> exists k :: k in s.nodes && id == Decimal.Show(k)
    ensures forall k :: k in s.nodes && id == Decimal.Show(k) ==> r == Some(s.nodes[k])
  {
    Decimal.ParseExact(id);
    match Decimal.Parse(id)
    case None => None
    case Some(k) => if k in s.nodes then Some(s.nodes[k]) else None
  }

  /** `create($data)`: a new, unsaved node holding `data`. */
  function Create(data: map<string, Value>): (r: Node)
    ensures r.nid.None?
    ensures r.fields.Keys == data.Keys
    ensures forall f :: f in data ==> r.fields[f] == data[f]
  {
    Node(None, data)
  }

  /** What `save()` leaves behind: the storage and the id the node is saved under. */
  datatype Saved = Saved(store: Store, id: NodeId)

  /** `save()`: an unsaved node gets the next serial id; a saved one replaces
      the stored version under its id. */
  function Save(s: Store, node: Node): (r: Saved)
    ensures r.store.nodes.Keys == s.nodes.Keys + {r.id}
    ensures r.store.nodes[r.id] == node.(nid := Some(r.id))
    ensures forall k :: k in s.nodes && k != r.id ==> r.store.nodes[k] == s.nodes[k]
    ensures node.nid.Some? ==> r.id == node.nid.value && r.store.nextId == s.nextId
    ensures node.nid.None? ==> r.id == s.nextId && r.store.nextId == s.nextId + 1
  {
    match node.nid
    case None =>
      Saved(Store(s.nodes[s.nextId := node.(nid := Some(s.nextId))], s.nextId + 1), s.nextId)
    case Some(k) =>
      Saved(s.(nodes := s.nodes[k := node]), k)
  }

  /** `delete()`: removes the node's id from the storage; an unsaved node
      is not stored, so nothing changes. */
  function Delete(s: Store, node: Node): (r: Store)
    ensures r.nextId == s.nextId
    ensures node.nid.Some? ==> r.nodes.Keys == s.nodes.Keys - {node.nid.value}
    ensures forall k :: k in r.nodes ==> k in s.nodes && r.nodes[k] == s.nodes[k]
  {
    match node.nid
    case None => s
    case Some(k) => s.(nodes := s.nodes - {k})
  }

  /** `$node->set($field, $value)` for every entry of `data`. */
  function SetFields(node: Node, data: map<string, Value>): (r: Node)
    ensures r.nid == node.nid
    ensures r.fields.Keys == node.fields.Keys + data.Keys
    ensures forall f :: f in data ==> r.fields[f] == data[f]
    ensures forall f :: f in node.fields && f !in data ==> r.fields[f] == node.fields[f]
  {
    node.(fields := node.fields + data)
  }

  // ---------------------------------------------------------------------
  // Validation steps.
  // ---------------------------------------------------------------------

  /** `getNodeFromRequest`: the node named by the `nid` query parameter. */
  function GetNodeFromRequest(s: Store, nid: Option<string>): (r: Result<Node, Exc>)
    ensures Php.Empty(nid) ==> r == Failure(Raise(InvalidIdMessage))
    ensures !Php.Empty(nid) && Load(s, nid.value).None? ==> r == Failure(Raise(NotFoundMessage))
    ensures r.Success? <==> !Php.Empty(nid) && Load(s, nid.value).Some?
    ensures r.Success? ==> r.value in s.nodes.Values
    ensures r.Success? ==> r.value == Load(s, nid.value).value
  {
    if Php.Empty(nid) then
      Failure(Raise(InvalidIdMessage))
    else
      match Load(s, nid.value)
      case None => Failure(Raise(NotFoundMessage))
      case Some(node) => Success(node)
  }

  /** `validateDataFromRequest`: the decoded body, cast to an array,
      restricted to the required fields, all three of which must be present
      (a NULL value counts as present). `body` is None when the decoder
      rejected the request content. */
  function ValidateDataFromRequest(body: Option<Value>): (r: Result<map<string, Value>, Exc>)
    ensures body.None? ==> r == Failure(Raise(InvalidJsonMessage))
    ensures body.Some? ==> (r.Success? <==> RequiredFields <= Php.ToArray(body.value).Keys)
    ensures body.Some? && r.Failure? ==> r.error == Raise(MissingFieldsMessage)
    ensures r.Success? ==> r.value.Keys == RequiredFields
    ensures r.Success? ==> forall f :: f in r.value ==> r.value[f] == Php.ToArray(body.value)[f]
  {
    match body
    case None => Failure(Raise(InvalidJsonMessage))
    case Some(decoded) =>
      var data := Php.IntersectKey(Php.ToArray(decoded), RequiredFields);
      if RequiredFields <= data.Keys then Success(data) else Failure(Raise(MissingFieldsMessage))
  }

  /** `validateNode`, given the messages of the entity-level violations that
      `getEntityViolations()` yields after `filterByFields`, in discovery
      order. The chain of one exception per violation is built, but what is
      thrown is `new $error`: a fresh blank exception of the same class. */
  function ValidateNode(node: Node, violations: seq<string>): (r: Result<Node, Exc>)
    ensures r.Success? <==> |violations| == 0
    ensures r.Success? ==> r.value == node
    ensures r.Failure? ==> ErrorMessages(r.error) == []
  {
    if |violations| > 0 then
      var error := ChainOf(violations);
      Failure(Reinstantiate(error))
    else
      Success(node)
  }

  /** The response every handler sends for a caught validation exception. */
  function ErrorResponse(e: Exc): (r: Response)
    ensures r.Errors?
    ensures forall m :: m in r.errors <==> m in Chain(e) && !Php.Falsy(m)
    ensures e.prev.None? && !Php.Falsy(e.msg) ==> r == Errors([e.msg])
  {
    Errors(ErrorMessages(e))
  }

  // ---------------------------------------------------------------------
  // Handlers. `violations` stands for the constraint engine: the messages
  // of the entity-level violations it reports for a node, in discovery order.
  // ---------------------------------------------------------------------

  /** GET: the node named by `nid`. */
  function GetNode(s: Store, nid: Option<string>): (r: Reply)
    ensures r.store == s
    ensures Php.Empty(nid) ==> r.response == Errors([InvalidIdMessage])
    ensures !Php.Empty(nid) && Load(s, nid.value).None? ==> r.response == Errors([NotFoundMessage])
    ensures !Php.Empty(nid) && Load(s, nid.value).Some? ==> r.response == NodeData(Load(s, nid.value).value)
  {
    match GetNodeFromRequest(s, nid)
    case Failure(e) => Reply(s, ErrorResponse(e))
    case Success(node) => Reply(s, NodeData(node))
  }

  /** POST: create a node from the body; it is saved only when both the
      body and the new node validate. */
  function PostNode(s: Store, body: Option<Value>, violations: Node -> seq<string>): (r: Reply)
    ensures r.response.Errors? || r.response.Created?
    ensures r.response.Errors? ==> r.store == s
    ensures body.None? ==> r == Reply(s, Errors([InvalidJsonMessage]))
    ensures body.Some? && !(RequiredFields <= Php.ToArray(body.value).Keys) ==>
              r == Reply(s, Errors([MissingFieldsMessage]))
    ensures r.response.Created? <==>
              && ValidateDataFromRequest(body).Success?
              && violations(Create(ValidateDataFromRequest(body).value)) == []
    ensures r.response.Created? ==> r.response.message == SavedMessage && r.response.nid == s.nextId
  {
    match ValidateDataFromRequest(body)
    case Failure(e) => Reply(s, ErrorResponse(e))
    case Success(data) =>
      var node := Create(data);
      match ValidateNode(node, violations(node))
      case Failure(e) => Reply(s, ErrorResponse(e))
      case Success(valid) =>
        var saved := Save(s, valid);
        Reply(saved.store, Created(SavedMessage, saved.id))
  }

  /** PUT: overwrite the three fields of the node named by `nid` with the
      body's values; saved only when every check passes. */
  function PutNode(s: Store, nid: Option<string>, body: Option<Value>, violations: Node -> seq<string>): (r: Reply)
    ensures r.response.Errors? || r.response == Done(UpdatedMessage)
    ensures r.response.Errors? ==> r.store == s
    ensures GetNodeFromRequest(s, nid).Failure? ==> r == GetNode(s, nid)
    ensures GetNodeFromRequest(s, nid).Success? && body.None? ==> r == Reply(s, Errors([InvalidJsonMessage]))
    ensures GetNodeFromRequest(s, nid).Success? && body.Some? && !(RequiredFields <= Php.ToArray(body.value).Keys) ==>
              r == Reply(s, Errors([MissingFieldsMessage]))
    ensures r.response.Done? <==>
              && GetNodeFromRequest(s, nid).Success?
              && ValidateDataFromRequest(body).Success?
              && violations(SetFields(GetNodeFromRequest(s, nid).value, ValidateDataFromRequest(body).value)) == []
  {
    match GetNodeFromRequest(s, nid)
    case Failure(e) => Reply(s, ErrorResponse(e))
    case Success(node) =>
      match ValidateDataFromRequest(body)
      case Failure(e) => Reply(s, ErrorResponse(e))
      case Success(data) =>
        var updated := SetFields(node, data);
        match ValidateNode(updated, violations(updated))
        case Failure(e) => Reply(s, ErrorResponse(e))
        case Success(valid) => Reply(Save(s, valid).store, Done(UpdatedMessage))
  }

  /** DELETE: remove the node named by `nid`. */
  function DeleteNode(s: Store, nid: Option<string>): (r: Reply)
    ensures r.response.Errors? || r.response == Done(DeletedMessage)
    ensures r.response.Errors? ==> r == GetNode(s, nid)
    ensures r.response.Done? <==> GetNodeFromRequest(s, nid).Success?
    ensures r.response.Done? && GetNodeFromRequest(s, nid).Success? && GetNodeFromRequest(s, nid).value.nid.Some? ==>
              r.store.nodes.Keys == s.nodes.Keys - {GetNodeFromRequest(s, nid).value.nid.value}
    ensures r.store.nextId == s.nextId
    ensures forall k :: k in r.store.nodes ==> k in s.nodes && r.store.nodes[k] == s.nodes[k]
  {
    match GetNodeFromRequest(s, nid)
    case Failure(e) => Reply(s, ErrorResponse(e))
    case Success(node) => Reply(Delete(s, node), Done(DeletedMessage))
  }
}
