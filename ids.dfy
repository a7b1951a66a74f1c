/** Identifiers built from a millisecond clock reading, as `n-<ms>` for nodes and
    `tree-<ms>` for trees. The clock itself is a parameter. */
module Ids {

  /** The decimal digit for `d`. */
  function Digit(d: nat): (c: char)
    requires d < 10
    ensures '0' <= c <= '9'
    ensures c as int - '0' as int == d
  {
    ['0', '1', '2', '3', '4', '5', '6', '7', '8', '9'][d]
  }

  /** The decimal rendering of `n`, without leading zeros, as template literals print it. */
  function Decimal(n: nat): (s: string)
    ensures |s| >= 1
    ensures forall i :: 0 <= i < |s| ==> '0' <= s[i] <= '9'
    ensures n < 10 <==> |s| == 1
  {
    if n < 10 then [Digit(n)] else Decimal(n / 10) + [Digit(n % 10)]
  }

  /** Different clock readings print differently. */
  lemma {:induction false} DecimalInjective(a: nat, b: nat)
    requires Decimal(a) == Decimal(b)
    ensures a == b
  {
    var s := Decimal(a);
    if a < 10 {
      assert Digit(a) == s[0] == Digit(b);
    } else {
      assert |Decimal(b)| > 1;
      assert Digit(a % 10) == s[|s| - 1] == Digit(b % 10);
      assert Decimal(a / 10) == s[..|s| - 1] == Decimal(b / 10);
      DecimalInjective(a / 10, b / 10);
    }
  }

  /** The id a node created at clock reading `now` receives. */
  function NodeId(now: nat): (id: string)
    ensures |id| >= 3 && id[..2] == "n-"
    ensures id[2..] == Decimal(now)
  {
    "n-" + Decimal(now)
  }

  /** The id a tree published at clock reading `now` receives. */
  function TreeId(now: nat): (id: string)
    ensures |id| >= 6 && id[..5] == "tree-"
    ensures id[5..] == Decimal(now)
  {
    "tree-" + Decimal(now)
  }

  /** Node ids are equal exactly when the clock readings are. */
  lemma NodeIdInjective(a: nat, b: nat)
    ensures NodeId(a) == NodeId(b) <==> a == b
  {
    if NodeId(a) == NodeId(b) {
      assert Decimal(a) == NodeId(a)[2..] == NodeId(b)[2..] == Decimal(b);
      DecimalInjective(a, b);
    }
  }

  /** Tree ids are equal exactly when the clock readings are. */
  lemma TreeIdInjective(a: nat, b: nat)
    ensures TreeId(a) == TreeId(b) <==> a == b
  {
    if TreeId(a) == TreeId(b) {
      assert Decimal(a) == TreeId(a)[5..] == TreeId(b)[5..] == Decimal(b);
      DecimalInjective(a, b);
    }
  }

  /** A generated node id never collides with the builder's root key. */
  lemma NodeIdIsNotRoot(now: nat)
    ensures NodeId(now) != "root"
  {
    assert NodeId(now)[0] == 'n';
  }
}
