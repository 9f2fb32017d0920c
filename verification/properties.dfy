/** Properties relating several steps or requests of the `adyax_ws` endpoint. */
module ControllerProperties {
  import opened Wrappers
  import Decimal
  import opened Json
  import Php
  import opened Exceptions
  import opened Controller

  /** The id a client receives after a POST (a serial id rendered as a
      numeral) loads exactly the node stored under it. */
  lemma LoadShown(s: Store, k: NodeId)
    ensures Load(s, Decimal.Show(k)) == if k in s.nodes then Some(s.nodes[k]) else None
  {
    Decimal.ParseShow(k);
  }

  /** A request naming a positive id gets that node, or the not-found error;
      never the invalid-id error. */
  lemma GetNodeById(s: Store, k: NodeId)
    requires 1 <= k
    ensures GetNode(s, Some(Decimal.Show(k))).response ==
              if k in s.nodes then NodeData(s.nodes[k]) else Errors([NotFoundMessage])
  {
    Decimal.ShowIsZero(k);
    LoadShown(s, k);
  }

  /** The storage finds nodes under their canonical id only: an id padded
      with leading zeros loads nothing and is answered with not-found. */
  lemma LeadingZeroNotFound(s: Store, id: string)
    requires |id| > 1 && id[0] == '0'
    ensures Load(s, id) == None
    ensures GetNode(s, Some(id)).response == Errors([NotFoundMessage])
  {
    Decimal.ParseExact(id);
  }

  /** Id 0 is written "0", which `empty()` rejects before the storage is asked. */
  lemma GetNodeZero(s: Store)
    ensures GetNode(s, Some(Decimal.Show(0))).response == Errors([InvalidIdMessage])
  {
    Decimal.ShowIsZero(0);
  }

  /** A body that is not a JSON object never carries the required fields:
      after the array cast its keys are all numerals. */
  lemma NonObjectBodyRejected(v: Value)
    requires !v.Object?
    ensures ValidateDataFromRequest(Some(v)) == Failure(Raise(MissingFieldsMessage))
  {
    assert !Decimal.IsDigit("title"[0]);
  }

  /** A successful POST stores the payload under a fresh id, leaves every
      other node alone, keeps the storage consistent, and a GET for the
      returned id finds the node with the posted title, type and body. */
  lemma PostThenGet(s: Store, body: Option<Value>, violations: Node -> seq<string>)
    requires Valid(s)
    requires PostNode(s, body, violations).response.Created?
    ensures var r := PostNode(s, body, violations);
            var k := r.response.nid;
            && Valid(r.store)
            && k !in s.nodes
            && r.store.nodes.Keys == s.nodes.Keys + {k}
            && (forall j :: j in s.nodes ==> r.store.nodes[j] == s.nodes[j])
            && GetNode(r.store, Some(Decimal.Show(k))).response.NodeData?
            && var node := GetNode(r.store, Some(Decimal.Show(k))).response.node;
               && node.nid == Some(k)
               && node.fields.Keys == RequiredFields
               && forall f :: f in RequiredFields ==> node.fields[f] == Php.ToArray(body.value)[f]
  {
    var r := PostNode(s, body, violations);
    var k := r.response.nid;
    assert k == s.nextId;
    GetNodeById(r.store, k);
  }

  /** POST keeps the storage consistent, whatever the request. */
  lemma PostPreservesValid(s: Store, body: Option<Value>, violations: Node -> seq<string>)
    requires Valid(s)
    ensures Valid(PostNode(s, body, violations).store)
  {
    var r := PostNode(s, body, violations);
    if r.response.Created? {
      PostThenGet(s, body, violations);
    }
  }

  /** PUT keeps the storage consistent, whatever the request. */
  lemma PutPreservesValid(s: Store, nid: Option<string>, body: Option<Value>, violations: Node -> seq<string>)
    requires Valid(s)
    ensures Valid(PutNode(s, nid, body, violations).store)
  {
  }

  /** DELETE keeps the storage consistent, whatever the request. */
  lemma DeletePreservesValid(s: Store, nid: Option<string>)
    requires Valid(s)
    ensures Valid(DeleteNode(s, nid).store)
  {
  }

  /** PUT on an existing id rewrites exactly the title, type and body of
      that node; its other fields, its id and every other node stay as they
      were. On a missing id it reports not-found and changes nothing. */
  lemma PutById(s: Store, k: NodeId, body: Option<Value>, violations: Node -> seq<string>)
    requires Valid(s)
    requires 1 <= k
    ensures var r := PutNode(s, Some(Decimal.Show(k)), body, violations);
            && (k !in s.nodes ==> r == Reply(s, Errors([NotFoundMessage])))
            && (r.response.Done? ==>
                  && k in s.nodes
                  && r.store.nextId == s.nextId
                  && r.store.nodes.Keys == s.nodes.Keys
                  && (forall j :: j in s.nodes && j != k ==> r.store.nodes[j] == s.nodes[j])
                  && r.store.nodes[k].nid == Some(k)
                  && r.store.nodes[k].fields.Keys == s.nodes[k].fields.Keys + RequiredFields
                  && (forall f :: f in RequiredFields ==>
                        r.store.nodes[k].fields[f] == Php.ToArray(body.value)[f])
                  && (forall f :: f in s.nodes[k].fields && f !in RequiredFields ==>
                        r.store.nodes[k].fields[f] == s.nodes[k].fields[f]))
  {
    GetNodeById(s, k);
    Decimal.ShowIsZero(k);
    LoadShown(s, k);
  }

  /** DELETE on an existing id removes that node and nothing else, after
      which a GET for it reports not-found; on a missing id nothing changes. */
  lemma DeleteThenGet(s: Store, k: NodeId)
    requires Valid(s)
    requires 1 <= k
    ensures var r := DeleteNode(s, Some(Decimal.Show(k)));
            && (k !in s.nodes ==> r == Reply(s, Errors([NotFoundMessage])))
            && (k in s.nodes ==>
                  && r.response == Done(DeletedMessage)
                  && r.store.nodes == s.nodes - {k}
                  && GetNode(r.store, Some(Decimal.Show(k))).response == Errors([NotFoundMessage]))
  {
    var r := DeleteNode(s, Some(Decimal.Show(k)));
    GetNodeById(s, k);
    Decimal.ShowIsZero(k);
    LoadShown(s, k);
    if k in s.nodes {
      assert r.store.nodes == s.nodes - {k};
      GetNodeById(r.store, k);
    }
  }

  /** A schema failure on POST reaches the client as an empty error list:
      the violation messages are lost with the discarded chain. */
  lemma PostSchemaFailureReportsNothing(s: Store, body: Option<Value>, violations: Node -> seq<string>)
    requires ValidateDataFromRequest(body).Success?
    requires violations(Create(ValidateDataFromRequest(body).value)) != []
    ensures PostNode(s, body, violations) == Reply(s, Errors([]))
  {
  }

  /** The same for PUT on a node that loads. */
  lemma PutSchemaFailureReportsNothing(s: Store, nid: Option<string>, body: Option<Value>, violations: Node -> seq<string>)
    requires GetNodeFromRequest(s, nid).Success?
    requires ValidateDataFromRequest(body).Success?
    requires violations(SetFields(GetNodeFromRequest(s, nid).value, ValidateDataFromRequest(body).value)) != []
    ensures PutNode(s, nid, body, violations) == Reply(s, Errors([]))
  {
  }

  /** What is lost: had the chain been thrown, the response would have listed
      the truthy violation messages newest first; as thrown, it lists none,
      so a truthy violation always makes the two differ. */
  lemma DiscardedChainGap(node: Node, violations: seq<string>, i: nat)
    requires i < |violations| && !Php.Falsy(violations[i])
    ensures ErrorMessages(ChainOf(violations)) == Php.ArrayFilter(Reverse(violations))
    ensures violations[i] in ErrorMessages(ChainOf(violations))
    ensures ValidateNode(node, violations).Failure?
    ensures ErrorMessages(ValidateNode(node, violations).error) == []
  {
    ChainOfErrorMessages(violations);
    assert Reverse(violations)[|violations| - 1 - i] == violations[i];
  }
}
