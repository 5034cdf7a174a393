/** Looking for a character in a string. */
module Search {

  /** strchr from position i, up to the end. */
  function Find(s: string, c: char, i: nat): (k: nat)
    requires i <= |s|
    ensures i <= k <= |s| && (k < |s| ==> s[k] == c) && c !in s[i..k]
    decreases |s| - i
  {
    if i == |s| || s[i] == c then i
    else
      var k := Find(s, c, i + 1);
      assert s[i..k] == [s[i]] + s[i + 1..k];
      k
  }

  lemma FindAt(s: string, c: char, i: nat, k: nat)
    requires i <= k <= |s| && c !in s[i..k] && (k < |s| ==> s[k] == c)
    ensures Find(s, c, i) == k
  {
    var f := Find(s, c, i);
    assert forall j :: i <= j < k ==> s[j] in s[i..k];
    assert forall j :: i <= j < f ==> s[j] in s[i..f];
  }
}
