/**
 * The scans the code uses to pick one element of a list: keep the first
 * element whose score beats every earlier one under a strict comparison.
 * Elements the scan skips are None.
 */
module Selection {
  import opened Wrappers

  /** Every element is skipped. */
  predicate NoneRated(s: seq<Option<real>>) {
    forall i :: 0 <= i < |s| ==> s[i].None?
  }

  /**
   * The index a left-to-right scan keeps when it replaces its choice only
   * on a strictly greater score, or -1 when every element is skipped.
   */
  function FirstMax(s: seq<Option<real>>): (r: int)
    ensures -1 <= r < |s|
    ensures r == -1 <==> NoneRated(s)
    ensures r >= 0 ==> s[r].Some?
    ensures r >= 0 ==> forall j :: 0 <= j < |s| && s[j].Some? ==> s[j].value <= s[r].value
    ensures r >= 0 ==> forall j :: 0 <= j < r && s[j].Some? ==> s[j].value < s[r].value
  {
    if |s| == 0 then -1
    else
      var k := FirstMax(s[..|s| - 1]);
      assert forall j :: 0 <= j < |s| - 1 ==> s[..|s| - 1][j] == s[j];
      var last := s[|s| - 1];
      if last.Some? && (k == -1 || last.value > s[k].value) then |s| - 1 else k
  }

  /** Negates every score, so that the first maximum of the result is the first minimum. */
  function Negated(s: seq<Option<real>>): (r: seq<Option<real>>)
    ensures |r| == |s|
    ensures forall i :: 0 <= i < |s| ==> r[i].Some? == s[i].Some?
    ensures forall i :: 0 <= i < |s| && s[i].Some? ==> r[i].value == -s[i].value
  {
    seq(|s|, i requires 0 <= i < |s| => if s[i].Some? then Some(-s[i].value) else None)
  }

  /**
   * The index a left-to-right scan keeps when it replaces its choice only
   * on a strictly smaller score, or -1 when every element is skipped.
   */
  function FirstMin(s: seq<Option<real>>): (r: int)
    ensures -1 <= r < |s|
    ensures r == -1 <==> NoneRated(s)
    ensures r >= 0 ==> s[r].Some?
    ensures r >= 0 ==> forall j :: 0 <= j < |s| && s[j].Some? ==> s[r].value <= s[j].value
    ensures r >= 0 ==> forall j :: 0 <= j < r && s[j].Some? ==> s[r].value < s[j].value
  {
    var n := Negated(s);
    var r := FirstMax(n);
    assert r == -1 <==> NoneRated(s) by {
      if NoneRated(n) {
        assert NoneRated(s);
      }
    }
    r
  }

  /** The scan written as the source's loop: a running choice and its score. */
  method ScanForMax(s: seq<Option<real>>) returns (closest: int)
    ensures closest == FirstMax(s)
  {
    closest := -1;
    var best: Option<real> := None;
    var i := 0;
    while i < |s|
      invariant 0 <= i <= |s|
      invariant closest == FirstMax(s[..i])
      invariant closest == -1 <==> best.None?
      invariant closest >= 0 ==> best == s[closest]
    {
      assert s[..i + 1][..i] == s[..i];
      if s[i].Some? && (best.None? || s[i].value > best.value) {
        best := s[i];
        closest := i;
      }
      i := i + 1;
    }
    assert s[..i] == s;
  }
}
