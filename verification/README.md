# adyax_ws request validation, modelled in Dafny

This project models the `adyax_ws` web-service controller of the `adyax_test` Drupal module. The controller offers GET, POST, PUT and DELETE on nodes. The model covers its request-validation and error-reporting pipeline:

- resolving the `nid` query parameter to a node;
- decoding the JSON body and keeping only the `title`, `type` and `body` fields, all three of which must be present;
- checking the node against the field-constraint engine;
- flattening a chain of `AdyaxWSValidationErrorException`s into the `errors` list of the response;
- the four handlers built from these steps.

Everything is a pure function. Each handler takes the node storage and the parts of the request it reads. It returns a `Reply`: the storage afterwards and the response body.

- The storage is `Store(nodes: map<NodeId, Node>, nextId)`. A node carries its id once saved (`None` while unsaved, as `create()` leaves it) and a map of field values. New nodes get serial ids from 1 upwards, so ids are never reused.
- The `nid` query parameter is `Option<string>`, with `None` for an absent parameter. The storage loads node `k` only for the id written as `k`'s canonical decimal numeral, with no sign and no leading zero.
- The request body is `Option<Json.Value>`, with `None` when the serializer's decoder throws. The `(array)` cast applied to the decoded value is modelled: an object keeps its members, a list is keyed by its indices, `null` becomes the empty array, and any other scalar becomes a one-element array under key `0`.
- The constraint engine is a parameter `violations: Node -> seq<string>`. It returns the messages of the entity-level violations that `getEntityViolations()` yields after `filterByFields` (line 118), in discovery order.
- The exception chain is the datatype `Exc(msg, prev: Option<Exc>)`. `getErrorMessages` is modelled twice: as the function `ErrorMessages`, and as the method `GetErrorMessages`, whose do/while loop is proved to compute the same list. `array_filter` drops the strings PHP treats as false: `""` and `"0"`.

Schema failures report nothing. At line 125, `validateNode` builds one exception per violation and then executes `throw new $error`. In PHP, `new` applied to an object builds a fresh instance of that object's class with default constructor arguments. So the thrown exception has an empty message and no previous exception. A POST or PUT whose node fails validation therefore gets `{"errors": []}` and the storage is unchanged. The model keeps this behaviour (`ValidateNode`, `PostSchemaFailureReportsNothing`, `PutSchemaFailureReportsNothing`). `DiscardedChainGap` states what the discarded chain would have reported: every truthy violation message, newest first.

PUT requires all three fields, exactly as POST does: both call `validateDataFromRequest` (lines 178 and 202), whose check at lines 96-99 rejects any payload missing one of them.

## Model

| member | source | states |
|---|---|---|
| Controller.GetNodeFromRequest | src/Controller/AdyaxWSController.php:65-75 | An absent, `""` or `"0"` id fails with exactly the invalid-id exception. A non-empty id that does not load fails with exactly the not-found exception. Otherwise the result is exactly the node `load($nid)` returned, which is one of the stored nodes. |
| Controller.Load | src/Controller/AdyaxWSController.php:70-71 | An id loads a node exactly when it is the canonical numeral of a stored id, and the node loaded is the one stored under that id. |
| ControllerProperties.LeadingZeroNotFound | src/Controller/AdyaxWSController.php:70-72 | An id padded with a leading zero, such as "05", loads nothing, and GET answers exactly the not-found error. |
| Controller.Create | src/Controller/AdyaxWSController.php:180 | `create($data)` gives an unsaved node, without an id, whose fields are exactly the payload's keys and values. |
| Controller.ValidateDataFromRequest | src/Controller/AdyaxWSController.php:88-102 | An undecodable body gives only the invalid-json exception. A decoded body succeeds exactly when its array cast holds all of title, type and body, and otherwise fails with only the required-fields exception. On success the key set is exactly {title, type, body} and each value equals the input's value. |
| Php.ToArray | src/Controller/AdyaxWSController.php:90 | The `(array)` cast keeps an object's members. It keys a list by the numerals of its indices, with nothing else. It maps null to the empty array and any other scalar to a one-entry array under "0". Apart from objects, every resulting key is a numeral. |
| Php.IntersectKey | src/Controller/AdyaxWSController.php:95 | The result's keys are exactly the input keys that are in the allow-list, and retained values are untouched. |
| ControllerProperties.NonObjectBodyRejected | src/Controller/AdyaxWSController.php:90-99 | A body that decodes to anything but a JSON object always fails with the required-fields exception, because its array keys are numerals. |
| Controller.ValidateNode | src/Controller/AdyaxWSController.php:115-128 | With no violations, the node is returned unchanged. With any violation, validation fails, and the thrown exception flattens to the empty list. |
| Exceptions.BuildChain | src/Controller/AdyaxWSController.php:120-124 | The loop that links one exception per violation onto a blank root produces the chain `ChainOf(violations)`. |
| Exceptions.ChainOfMessages | src/Controller/AdyaxWSController.php:120-124 | Walking the built chain from its head yields the violations in reverse discovery order, followed by the blank root's empty message. |
| Exceptions.ChainOfErrorMessages | src/Controller/AdyaxWSController.php:120-146 | Flattening the built chain gives the truthy violation messages in reverse discovery order, with the empty root dropped. |
| Exceptions.Reinstantiate | src/Controller/AdyaxWSController.php:125 | `new $error` yields an exception whose flattened error list is empty, whatever chain `$error` headed. |
| ControllerProperties.DiscardedChainGap | src/Controller/AdyaxWSController.php:119-125 | When some violation message is truthy, the discarded chain would report it, but the exception actually thrown reports nothing. |
| Exceptions.Raise | src/Controller/AdyaxWSController.php:68 | An exception built from one message has a chain consisting of that message alone, and flattens to `[msg]` when the message is truthy. This is the form of every input error at lines 68, 72, 93 and 98. |
| Controller.ErrorResponse | src/Controller/AdyaxWSController.php:162 | The caught-exception reply is always an error list. It holds exactly the chain's truthy messages, and is `[msg]` for a one-link exception with a truthy message. This is the reply at lines 162, 185, 210 and 230. |
| Exceptions.ErrorMessages | src/Controller/AdyaxWSController.php:139-146 | The list holds exactly the chain's messages that are not falsy, and no falsy string. A one-link chain gives `[msg]`, or `[]` when msg is falsy. |
| Exceptions.GetErrorMessages | src/Controller/AdyaxWSController.php:139-146 | The do/while walk through `previous` links, followed by `array_filter`, computes exactly `ErrorMessages`: messages outermost first, falsy ones removed. |
| Php.ArrayFilter | src/Controller/AdyaxWSController.php:145 | The result is no longer than the input. It contains no falsy string, and holds exactly the input's truthy strings. |
| Controller.SetFields | src/Controller/AdyaxWSController.php:203-205 | Every payload field takes the payload value. Every other field keeps its value, and the node id is unchanged. |
| Controller.Save | src/Controller/AdyaxWSController.php:182 | An unsaved node is stored under the next serial id, which then advances. A saved node replaces the stored version under its own id. No other node changes. |
| Controller.Delete | src/Controller/AdyaxWSController.php:227 | Only the node's own id is removed, and every remaining node is unchanged. |
| Controller.GetNode | src/Controller/AdyaxWSController.php:157-165 | The storage is never modified. An empty id gives `{errors: [invalid id]}`, an id that does not load gives `{errors: [not found]}`, and otherwise the loaded node is returned. |
| Controller.PostNode | src/Controller/AdyaxWSController.php:176-188 | On any error the storage is unchanged. An undecodable body gives only the invalid-json error, and missing fields give only the required-fields error. The node is saved exactly when the body validates and the new node has no violations, and the reply then carries the saved message and the new id. |
| Controller.PutNode | src/Controller/AdyaxWSController.php:199-213 | On any error the storage is unchanged. An id that does not resolve wins over any body problem, giving the same reply as GET. Once the id resolves, an undecodable body gives exactly the invalid-json error and a body missing title, type or body gives exactly the required-fields error. The update is saved exactly when the id resolves, the body validates and the updated node has no violations. |
| Controller.DeleteNode | src/Controller/AdyaxWSController.php:224-233 | Errors are those of GET, with the storage unchanged. The delete succeeds exactly when the id resolves, and then the loaded node's id is removed from the storage. No node is added or altered. |
| ControllerProperties.LoadShown | src/Controller/AdyaxWSController.php:66-70 | The numeral of an id loads exactly the node stored under that id, or nothing when no node has that id. |
| ControllerProperties.GetNodeById | src/Tests/AdyaxWSControllerTest.php:92-99 | GET with the numeral of a positive id returns the node stored under it, or exactly the not-found error. |
| ControllerProperties.GetNodeZero | src/Controller/AdyaxWSController.php:67-68 | Id 0 is written "0", which `empty()` rejects with the invalid-id error before the storage is asked. |
| ControllerProperties.PostThenGet | src/Tests/AdyaxWSControllerTest.php:104-115 | After a successful POST the returned id is fresh, exactly one node is added and the others are untouched. The storage stays consistent. A GET for the id finds a node carrying that id and exactly the posted title, type and body. |
| ControllerProperties.PostPreservesValid | src/Controller/AdyaxWSController.php:176-188 | Every POST leaves a consistent storage consistent: ids run from 1 below the serial counter, and each node is stored under its own id. |
| ControllerProperties.PutPreservesValid | src/Controller/AdyaxWSController.php:199-213 | Every PUT leaves a consistent storage consistent. |
| ControllerProperties.DeletePreservesValid | src/Controller/AdyaxWSController.php:224-233 | Every DELETE leaves a consistent storage consistent. |
| ControllerProperties.PutById | src/Tests/AdyaxWSControllerTest.php:120-131 | PUT on a missing id reports not-found and changes nothing. A successful PUT keeps the set of ids and the serial counter. It sets exactly title, type and body to the posted values and keeps that node's other fields and id. Every other node is left alone. |
| ControllerProperties.DeleteThenGet | src/Tests/AdyaxWSControllerTest.php:136-143 | DELETE on an existing id removes only that id and returns the deleted message, and a later GET reports not-found. On a missing id nothing changes. |
| ControllerProperties.PostSchemaFailureReportsNothing | src/Controller/AdyaxWSController.php:176-186 | When the body validates but the new node has violations, POST leaves the storage unchanged and answers `{errors: []}`. |
| ControllerProperties.PutSchemaFailureReportsNothing | src/Controller/AdyaxWSController.php:199-211 | When the id resolves and the body validates but the updated node has violations, PUT leaves the storage unchanged and answers `{errors: []}`. |

## Left out

- HTTP plumbing is not modelled: `JsonResponse`, the status code (always 200) and headers, and `$this->t()` translation. Messages are fixed strings.
- The GET success body is the serializer's `normalize()` output, a foreign format. The model returns the node itself.
- JSON decoding is not modelled. The body arrives already decoded, or as `None` when decoding fails. JSON numbers are modelled as integers, because the controller only moves them around.
- PHP converts numeric-string object keys such as `"5"` to integer keys. Keys here stay strings. This cannot affect the lookup of `title`, `type` and `body`.
- `array_filter` keeps the original array keys, so a filtered list with gaps would serialise as a JSON object. That is an encoding quirk and is not modelled.
- Entity storage internals are reduced to map operations. A query id other than the canonical decimal numeral of a stored id (a sign, surrounding spaces, `"5.0"`, a leading zero) loads nothing. A `nid` given as a query array is not modelled.
- The constraint engine (`validate`, `filterByFields`, `getEntityViolations`) is the parameter `violations`.
- `create()` may fill default field values; here it yields the payload alone.
- Exceptions other than `AdyaxWSValidationErrorException` are left out. These come from the storage or entity API, for example an unknown bundle in `type`. The handlers do not catch them, so they propagate.
- The constructor and its dependency injection are left out.
- `AdyaxWSValidationErrorException` is not part of this model. It is taken to keep `\Exception`'s constructor, with an empty message and no previous exception by default.
- The integration test file is not modelled as code. Its scenarios appear as the `PostThenGet`, `PutById`, `DeleteThenGet` and `GetNodeById` lemmas.
