/**
 * The order in which a fail-fast loop meets its items: it stops at the first item
 * that fails, so everything before that item passed and nothing after it is looked at.
 */
module FailFast {

  /** Index of the first item `ok` rejects, or `|s|` when it accepts them all. */
  function FirstFailing<T>(s: seq<T>, ok: T -> bool): (k: nat)
    ensures k <= |s|
    ensures forall j :: 0 <= j < k ==> ok(s[j])
    ensures k < |s| ==> !ok(s[k])
  {
    if s == [] || !ok(s[0]) then 0
    else
      var k := FirstFailing(s[1..], ok);
      assert forall j :: 1 <= j < k + 1 ==> s[j] == s[1..][j - 1];
      k + 1
  }

  /** The three facts above pin the index down: any `k` having them is the first failing one. */
  lemma FirstFailingIs<T>(s: seq<T>, ok: T -> bool, k: nat)
    requires k <= |s|
    requires forall j :: 0 <= j < k ==> ok(s[j])
    requires k < |s| ==> !ok(s[k])
    ensures FirstFailing(s, ok) == k
  {
  }

  /**
   * Once an item has failed, what follows it does not matter: the first failing item of
   * the items up to it followed by anything at all is still that item.
   */
  lemma IgnoresRest<T>(s: seq<T>, ok: T -> bool, k: nat, rest: seq<T>)
    requires k < |s|
    requires forall j :: 0 <= j < k ==> ok(s[j])
    requires !ok(s[k])
    ensures FirstFailing(s, ok) == k
    ensures FirstFailing(s[..k + 1] + rest, ok) == k
  {
    var cut := s[..k + 1] + rest;
    assert forall j :: 0 <= j <= k ==> cut[j] == s[j];
    FirstFailingIs(s, ok, k);
    FirstFailingIs(cut, ok, k);
  }
}
