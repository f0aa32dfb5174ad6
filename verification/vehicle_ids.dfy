/** Vehicle identifiers and the travel axis the controller reads from them.
    The route file names vehicles `right_<n>`, `left_<n>`, `up_<n>` and
    `down_<n>`; the controller only ever looks for those words inside an id. */
module VehicleIds {
  /** Python's `sub in s` on strings: `sub` is the slice of `s` at some offset. */
  predicate Contains(s: string, sub: string) {
    exists i :: 0 <= i <= |s| - |sub| && OccursAt(s, sub, i)
  }

  /** `sub` is the slice of `s` that starts at offset `i`. */
  predicate OccursAt(s: string, sub: string, i: int) {
    0 <= i <= |s| - |sub| && s[i..i + |sub|] == sub
  }

  /** `"up" in id or "down" in id`: the test `run` uses for an up/down (vertical) car. */
  predicate IsVertical(id: string) {
    Contains(id, "up") || Contains(id, "down")
  }

  /** `"left" in id or "right" in id`: the filter the 'UD' query applies. */
  predicate IsLateral(id: string) {
    Contains(id, "left") || Contains(id, "right")
  }

  /** An id that names exactly one axis; every id the route generator writes has this shape. */
  predicate SingleAxis(id: string) {
    !(IsVertical(id) && IsLateral(id))
  }

  /** The decimal vehicle number the route generator appends to an id. */
  predicate IsDigits(d: string) {
    forall i :: 0 <= i < |d| ==> '0' <= d[i] <= '9'
  }

  /** A string that lacks the first character of `sub` does not contain `sub`. */
  lemma {:induction false} AbsentFirstChar(s: string, sub: string)
    requires |sub| > 0 && sub[0] !in s
    ensures !Contains(s, sub)
  {
    forall i | 0 <= i <= |s| - |sub| ensures !OccursAt(s, sub, i) {
      assert s[i] in s;
      assert s[i..i + |sub|][0] == s[i];
    }
  }

  /** The four id shapes of the route file: `right_<n>` and `left_<n>` are
      left/right cars, `up_<n>` and `down_<n>` up/down cars, and each names
      one axis only. */
  lemma RouteIdsNameOneAxis(d: string)
    requires IsDigits(d)
    ensures IsLateral("right_" + d) && !IsVertical("right_" + d)
    ensures IsLateral("left_" + d) && !IsVertical("left_" + d)
    ensures IsVertical("up_" + d) && !IsLateral("up_" + d)
    ensures IsVertical("down_" + d) && !IsLateral("down_" + d)
  {
    assert OccursAt("right_" + d, "right", 0);
    assert OccursAt("left_" + d, "left", 0);
    assert OccursAt("up_" + d, "up", 0);
    assert OccursAt("down_" + d, "down", 0);
    AbsentFirstChar("right_" + d, "up");
    AbsentFirstChar("right_" + d, "down");
    AbsentFirstChar("left_" + d, "up");
    AbsentFirstChar("left_" + d, "down");
    AbsentFirstChar("up_" + d, "left");
    AbsentFirstChar("up_" + d, "right");
    AbsentFirstChar("down_" + d, "left");
    AbsentFirstChar("down_" + d, "right");
  }
}
