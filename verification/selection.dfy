/**
 * The specification of best-frame selection, on the sequence of scores the
 * capture loop has seen (in order, across every call).  `Peak` is the best
 * score kept so far, `Winner` the position of the frame kept as best; both are
 * written as the left-to-right fold the loop performs, and the lemmas below
 * say what they are.
 */
module Selection {
  import opened Optional

  function Max(x: nat, y: nat): nat
  {
    if x < y then y else x
  }

  /** The kept score after seeing `s`, starting from 0. */
  function Peak(s: seq<nat>): nat
  {
    if s == [] then 0 else Max(Peak(s[..|s| - 1]), s[|s| - 1])
  }

  /**
   * The position of the kept frame after seeing `s`, starting from none: a
   * score replaces the kept one only when it is strictly greater.
   */
  function Winner(s: seq<nat>): (r: Option<nat>)
    ensures r.Some? ==> r.value < |s|
  {
    if s == [] then None
    else if s[|s| - 1] > Peak(s[..|s| - 1]) then Some(|s| - 1)
    else Winner(s[..|s| - 1])
  }

  /** Independent statement of "first position of the maximum". */
  ghost predicate IsFirstMaximum(s: seq<nat>, i: nat)
  {
    i < |s| &&
    (forall j :: 0 <= j < |s| ==> s[j] <= s[i]) &&
    (forall j :: 0 <= j < i ==> s[j] < s[i])
  }

  /** The kept score is the maximum of 0 and every score seen. */
  lemma {:induction false} PeakIsMaximum(s: seq<nat>)
    ensures forall i :: 0 <= i < |s| ==> s[i] <= Peak(s)
    ensures Peak(s) == 0 || Peak(s) in s
  {
    if s != [] {
      var p := s[..|s| - 1];
      PeakIsMaximum(p);
      assert forall i :: 0 <= i < |p| ==> s[i] == p[i];
      assert Peak(p) in p ==> Peak(p) in s;
    }
  }

  /**
   * The kept frame is the first one reaching the maximum, and it exists
   * exactly when some score is positive: frames without faces never win.
   */
  lemma {:induction false} WinnerIsFirstMaximum(s: seq<nat>)
    ensures Winner(s).None? <==> forall i :: 0 <= i < |s| ==> s[i] == 0
    ensures Winner(s).Some? ==> IsFirstMaximum(s, Winner(s).value) && s[Winner(s).value] == Peak(s) > 0
  {
    if s != [] {
      var p := s[..|s| - 1];
      var x := s[|s| - 1];
      WinnerIsFirstMaximum(p);
      PeakIsMaximum(p);
      PeakIsMaximum(s);
      assert forall i :: 0 <= i < |p| ==> s[i] == p[i];
    }
  }

  /** Both directions: `Winner` picks exactly the first maximum, provided it is positive. */
  lemma WinnerExactlyFirstMaximum(s: seq<nat>, i: nat)
    ensures Winner(s) == Some(i) <==> IsFirstMaximum(s, i) && s[i] > 0
  {
    WinnerIsFirstMaximum(s);
    if IsFirstMaximum(s, i) && s[i] > 0 {
      assert Winner(s).Some?;
    }
  }

  /** No frame with a face: nothing is kept and the kept score stays 0. */
  lemma NoFaceNoWinner(s: seq<nat>)
    requires forall i :: 0 <= i < |s| ==> s[i] == 0
    ensures Winner(s) == None && Peak(s) == 0
  {
  }

  /**
   * One iteration of the loop: a score strictly above the current maximum
   * becomes the maximum and moves the winner to the new frame; any other
   * score (in particular a tie) leaves both as they were.
   */
  lemma Step(s: seq<nat>, x: nat)
    ensures Peak(s + [x]) == Max(Peak(s), x)
    ensures Winner(s + [x]) == if x > Peak(s) then Some(|s|) else Winner(s)
  {
  }

  /** The kept maximum never decreases as more frames are seen. */
  lemma {:induction false} PeakMonotone(s: seq<nat>, i: nat, j: nat)
    requires i <= j <= |s|
    ensures Peak(s[..i]) <= Peak(s[..j])
    decreases j - i
  {
    if i < j {
      PeakMonotone(s, i, j - 1);
      assert s[..j] == s[..j - 1] + [s[j - 1]];
      Step(s[..j - 1], s[j - 1]);
    }
  }

  /** Scores seen by a later call extend those of earlier calls: the maximum is over both. */
  lemma {:induction false} PeakConcat(a: seq<nat>, b: seq<nat>)
    ensures Peak(a + b) == Max(Peak(a), Peak(b))
    decreases |b|
  {
    if b == [] {
      assert a + b == a;
    } else {
      var b', x := b[..|b| - 1], b[|b| - 1];
      assert a + b == (a + b') + [x];
      assert b == b' + [x];
      PeakConcat(a, b');
      Step(a + b', x);
      Step(b', x);
    }
  }

  /**
   * A later call replaces the winner of the earlier calls only when it sees a
   * score strictly above their maximum; it then keeps the first frame of its
   * own that reaches its maximum.
   */
  lemma {:induction false} WinnerConcat(a: seq<nat>, b: seq<nat>)
    ensures Peak(b) <= Peak(a) ==> Winner(a + b) == Winner(a)
    ensures Peak(b) > Peak(a) ==> Winner(b).Some? && Winner(a + b) == Some(|a| + Winner(b).value)
    decreases |b|
  {
    if b != [] {
      var b', x := b[..|b| - 1], b[|b| - 1];
      assert a + b == (a + b') + [x];
      assert b == b' + [x];
      WinnerConcat(a, b');
      PeakConcat(a, b');
      Step(a + b', x);
      Step(b', x);
    } else {
      assert a + b == a;
    }
  }

  /** Five frames scoring 0, 2, 1, 2, 0: the kept score is 2 and the kept frame the second one. */
  lemma TiesKeepTheEarlierFrame()
    ensures Peak([0, 2, 1, 2, 0]) == 2 && Winner([0, 2, 1, 2, 0]) == Some(1)
  {
    var s0: seq<nat> := [];
    var s1, s2, s3, s4 := s0 + [0], s0 + [0, 2], s0 + [0, 2, 1], s0 + [0, 2, 1, 2];
    assert s2 == s1 + [2] && s3 == s2 + [1] && s4 == s3 + [2];
    Step(s0, 0);
    Step(s1, 2);
    Step(s2, 1);
    Step(s3, 2);
    Step(s4, 0);
    assert s4 + [0] == [0, 2, 1, 2, 0];
  }
}
