/** AdyaxWSValidationErrorException chains and how the controller turns
    them into the `errors` list of a response. */
module Exceptions {
  import opened Wrappers
  import Php

  /** An exception: its message and the exception it was chained to
      (`getPrevious()`). */
  datatype Exc = Exc(msg: string, prev: Option<Exc>)

  /** An exception built with no arguments: empty message, nothing chained. */
  const Blank := Exc("", None)

  /** An exception carrying one message and nothing chained. */
  function Raise(msg: string): (r: Exc)
    ensures Chain(r) == [msg]
    ensures !Php.Falsy(msg) ==> ErrorMessages(r) == [msg]
  {
    assert Messages(None) == [];
    Exc(msg, None)
  }

  /** The messages met when walking from `o` through the `previous` links. */
  function Messages(o: Option<Exc>): seq<string>
    decreases o
  {
    match o
    case None => []
    case Some(e) => [e.msg] + Messages(e.prev)
  }

  /** Every message of the chain headed by `e`, outermost first. */
  function Chain(e: Exc): seq<string> {
    Messages(Some(e))
  }

  /** The error list reported for `e`: its chain's messages, outermost
      first, without the falsy ones. */
  function ErrorMessages(e: Exc): (r: seq<string>)
    ensures forall i :: 0 <= i < |r| ==> !Php.Falsy(r[i])
    ensures forall m :: m in r <==> m in Chain(e) && !Php.Falsy(m)
    ensures e.prev.None? ==> r == (if Php.Falsy(e.msg) then [] else [e.msg])
  {
    var chain := Chain(e);
    assert chain == [e.msg] + Messages(e.prev);
    assert e.prev.None? ==> chain[1..] == Messages(None) == [];
    Php.ArrayFilter(chain)
  }

  /** The do/while walk of `getErrorMessages`, followed by `array_filter`. */
  method GetErrorMessages(exception: Exc) returns (errors: seq<string>)
    ensures errors == ErrorMessages(exception)
  {
    var collected: seq<string> := [];
    var current := Some(exception);
    while current.Some?
      invariant collected + Messages(current) == Chain(exception)
      decreases current
    {
      collected := collected + [current.value.msg];
      current := current.value.prev;
    }
    assert collected + [] == collected;
    errors := Php.ArrayFilter(collected);
  }

  /** The chain `validateNode` links up: a blank root, then one exception per
      violation, each pointing at the one before; the last violation is the
      head. */
  function ChainOf(violations: seq<string>): Exc
  {
    if |violations| == 0 then Blank
    else Exc(violations[|violations| - 1], Some(ChainOf(violations[..|violations| - 1])))
  }

  /** The loop that builds the chain, one link per violation in discovery order. */
  method BuildChain(violations: seq<string>) returns (error: Exc)
    ensures error == ChainOf(violations)
  {
    error := Blank;
    var i := 0;
    while i < |violations|
      invariant 0 <= i <= |violations|
      invariant error == ChainOf(violations[..i])
    {
      assert violations[..i + 1][..i] == violations[..i];
      error := Exc(violations[i], Some(error));
      i := i + 1;
    }
    assert violations[..|violations|] == violations;
  }

  /** `new $e` where `$e` is an exception object: a fresh instance of the same
      class built with default arguments, so nothing of `e` survives. */
  function Reinstantiate(e: Exc): (r: Exc)
    ensures ErrorMessages(r) == []
  {
    Blank
  }

  /** The elements of `s`, last first. */
  function Reverse(s: seq<string>): (r: seq<string>)
    ensures |r| == |s|
    ensures forall i :: 0 <= i < |s| ==> r[i] == s[|s| - 1 - i]
  {
    if |s| == 0 then [] else [s[|s| - 1]] + Reverse(s[..|s| - 1])
  }

  /** The built chain lists the violations newest first and ends in the
      blank root. */
  lemma {:induction false} ChainOfMessages(violations: seq<string>)
    ensures Chain(ChainOf(violations)) == Reverse(violations) + [""]
  {
    if |violations| > 0 {
      var init := violations[..|violations| - 1];
      ChainOfMessages(init);
      assert Chain(ChainOf(violations))
          == [violations[|violations| - 1]] + Chain(ChainOf(init));
    }
  }

  /** Flattening the built chain reports every truthy violation message, in
      reverse discovery order, and drops the blank root. */
  lemma ChainOfErrorMessages(violations: seq<string>)
    ensures ErrorMessages(ChainOf(violations)) == Php.ArrayFilter(Reverse(violations))
  {
    ChainOfMessages(violations);
    Php.ArrayFilterAppend(Reverse(violations), [""]);
    assert Php.ArrayFilter([""]) == [];
    assert Php.ArrayFilter(Reverse(violations)) + [] == Php.ArrayFilter(Reverse(violations));
  }
}
