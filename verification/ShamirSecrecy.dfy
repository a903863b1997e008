/** How many coefficient choices fit fewer shares than the threshold (usbvault-crypto/src/shamir.rs:88-136). */
module ShamirSecrecy {
  import opened Polynomial
  import opened Shamir
  import opened Counting
  import opened NumberTheory

  /** The random bytes for which the shares at `sel` carry the given data. */
  ghost function FittingChoices(secret: seq<bv8>, threshold: u8, sel: seq<position>, data: seq<seq<bv8>>)
    : set<seq<bv8>>
    requires threshold > 0 && |sel| == |data|
  {
    set random | random in Strings(RandomLength(secret, threshold))
      && EnoughRandom(secret, threshold, random) && Fits(secret, threshold, random, sel, data)
  }

  function RandomLength(secret: seq<bv8>, threshold: u8): nat
    requires threshold > 0
  {
    ProductOfNats(|secret|, threshold - 1);
    |secret| * (threshold - 1)
  }

  lemma ChoicesAreAll(secret: seq<bv8>, threshold: u8, sel: seq<position>, data: seq<seq<bv8>>, random: seq<bv8>)
    requires threshold > 0 && |sel| == |data|
    ensures random in FittingChoices(secret, threshold, sel, data)
      <==> EnoughRandom(secret, threshold, random) && Fits(secret, threshold, random, sel, data)
  {
    hide Fits, Strings;
    StringsFacts(RandomLength(secret, threshold));
  }

  // ---------- More positions ----------

  ghost function Positions(total: nat): set<int> {
    if total == 0 then {} else Positions(total - 1) + {total - 1}
  }

  lemma {:induction false} PositionsFacts(total: nat)
    ensures |Positions(total)| == total && forall i :: i in Positions(total) <==> 0 <= i < total
  {
    if total > 0 {
      PositionsFacts(total - 1);
    }
  }

  ghost function Taken(sel: seq<position>): set<int> {
    set i | i in sel
  }

  lemma {:induction false} TakenSize(sel: seq<position>)
    ensures |Taken(sel)| <= |sel|
  {
    if sel != [] {
      TakenSize(sel[1..]);
      assert Taken(sel) == Taken(sel[1..]) + {sel[0]};
    }
  }

  lemma UnusedPosition(sel: seq<position>, total: nat) returns (p: position)
    requires |sel| < total <= 255
    ensures p < total && p !in sel
  {
    PositionsFacts(total);
    TakenSize(sel);
    if forall i | 0 <= i < total :: i in Taken(sel) {
      SubsetSize(Positions(total), Taken(sel));
      assert false;
    }
    var i :| 0 <= i < total && i !in Taken(sel);
    p := i;
  }

  lemma SubsetSize(a: set<int>, b: set<int>)
    requires a <= b
    ensures |a| <= |b|
  {
    assert b == a + (b - a);
  }

  /** A selection can be extended to any size up to the number of shares. */
  lemma {:induction false} Extend(sel: seq<position>, total: nat, more: nat) returns (ext: seq<position>)
    requires Selection(sel, total) && |sel| + more <= total <= 255
    ensures |ext| == more && Selection(sel + ext, total)
    decreases more
  {
    ext := [];
    if more == 0 {
      assert sel + [] == sel;
    } else {
      var p := UnusedPosition(sel, total);
      var rest := Extend(sel + [p], total, more - 1);
      ext := [p] + rest;
      assert sel + ext == sel + [p] + rest;
    }
  }

  // ---------- The count ----------

  /** The data of the shares at `ext`. */
  ghost function DataAt(secret: seq<bv8>, threshold: u8, random: seq<bv8>, ext: seq<position>): (d: seq<seq<bv8>>)
    requires EnoughRandom(secret, threshold, random)
    ensures |d| == |ext| && forall k :: 0 <= k < |d| ==> |d[k]| == |secret|
  {
    seq(|ext|, k requires 0 <= k < |ext| => Share(secret, threshold, random, ext[k])[1..])
  }

  lemma ShareIsIndexAndData(secret: seq<bv8>, threshold: u8, random: seq<bv8>, p: position, data: seq<bv8>)
    requires EnoughRandom(secret, threshold, random)
    ensures Share(secret, threshold, random, p) == [Index(p)] + data
      <==> Share(secret, threshold, random, p)[1..] == data
  {
    hide Index, Eval, Poly;
    SharePrefixAt(secret, threshold, random, p, |secret|);
    var share := Share(secret, threshold, random, p);
    assert share == [share[0]] + share[1..];
    assert ([Index(p)] + data)[1..] == data;
  }

  lemma FitsBoth(secret: seq<bv8>, threshold: u8, random: seq<bv8>, sel: seq<position>, data: seq<seq<bv8>>,
                 ext: seq<position>, more: seq<seq<bv8>>)
    requires EnoughRandom(secret, threshold, random) && |sel| == |data| && |ext| == |more|
    ensures Fits(secret, threshold, random, sel + ext, data + more)
      <==> Fits(secret, threshold, random, sel, data) && DataAt(secret, threshold, random, ext) == more
  {
    hide Index, Share;
    var fitsMore := Fits(secret, threshold, random, ext, more);
    assert fitsMore <==> DataAt(secret, threshold, random, ext) == more by {
      forall k | 0 <= k < |ext| {
        ShareIsIndexAndData(secret, threshold, random, ext[k], more[k]);
      }
      var d := DataAt(secret, threshold, random, ext);
      assert d == more <==> forall k :: 0 <= k < |ext| ==> d[k] == more[k];
    }
    FitsAppend(secret, threshold, random, sel, data, ext, more);
  }

  lemma FitsAppend(secret: seq<bv8>, threshold: u8, random: seq<bv8>, sel: seq<position>, data: seq<seq<bv8>>,
                   ext: seq<position>, more: seq<seq<bv8>>)
    requires EnoughRandom(secret, threshold, random) && |sel| == |data| && |ext| == |more|
    ensures Fits(secret, threshold, random, sel + ext, data + more)
      <==> Fits(secret, threshold, random, sel, data) && Fits(secret, threshold, random, ext, more)
  {
    hide Index, Share, EnoughRandom;
    var sel', data' := sel + ext, data + more;
    assert forall k :: 0 <= k < |ext| ==> sel'[|sel| + k] == ext[k] && data'[|sel| + k] == more[k];
    assert forall k :: 0 <= k < |sel| ==> sel'[k] == sel[k] && data'[k] == data[k];
    assert forall k :: |sel| <= k < |sel'| ==> sel'[k] == ext[k - |sel|] && data'[k] == more[k - |sel|];
  }

  /** Two choices that fit the shares and agree at enough further positions are equal. */
  lemma SameChoice(secret: seq<bv8>, threshold: u8, total: nat, sel: seq<position>, data: seq<seq<bv8>>,
                   ext: seq<position>, r: seq<bv8>, r': seq<bv8>)
    requires secret != [] && 2 <= threshold <= total <= 255
    requires |sel| == |data| && Selection(sel + ext, total) && |sel| + |ext| == threshold - 1
    requires forall k :: 0 <= k < |data| ==> |data[k]| == |secret|
    requires r in FittingChoices(secret, threshold, sel, data) && r' in FittingChoices(secret, threshold, sel, data)
    requires DataAt(secret, threshold, r, ext) == DataAt(secret, threshold, r', ext)
    ensures r == r'
  {
    hide Fits, Strings, DataAt;
    var more := DataAt(secret, threshold, r, ext);
    var random := BelowThresholdFitsEverySecret(secret, threshold, total, sel + ext, data + more);
    FitsBoth(secret, threshold, r, sel, data, ext, more);
    FitsBoth(secret, threshold, r', sel, data, ext, more);
  }

  /** Whatever the data at further positions, some choice that fits the shares has it. */
  lemma ChoiceWith(secret: seq<bv8>, threshold: u8, total: nat, sel: seq<position>, data: seq<seq<bv8>>,
                   ext: seq<position>, more: seq<seq<bv8>>) returns (r: seq<bv8>)
    requires secret != [] && 2 <= threshold <= total <= 255
    requires |sel| == |data| && Selection(sel + ext, total) && |sel| + |ext| == threshold - 1
    requires forall k :: 0 <= k < |data| ==> |data[k]| == |secret|
    requires |more| == |ext| && forall k :: 0 <= k < |more| ==> |more[k]| == |secret|
    ensures r in FittingChoices(secret, threshold, sel, data)
    ensures DataAt(secret, threshold, r, ext) == more
  {
    hide Fits, Strings, DataAt, FittingChoices;
    r := BelowThresholdFitsEverySecret(secret, threshold, total, sel + ext, data + more);
    FitsBoth(secret, threshold, r, sel, data, ext, more);
    ChoicesAreAll(secret, threshold, sel, data, r);
  }

  /** Fewer shares than the threshold, however many, with any data: every secret of that length fits them for
      the same number of coefficient choices, 256 to the power of its length for each share that is missing. */
  lemma FewerSharesSayNothing(secret: seq<bv8>, threshold: u8, total: nat, sel: seq<position>, data: seq<seq<bv8>>)
    requires secret != [] && 2 <= threshold <= total <= 255
    requires Selection(sel, total) && |sel| == |data| < threshold
    requires forall k :: 0 <= k < |data| ==> |data[k]| == |secret|
    ensures |FittingChoices(secret, threshold, sel, data)| == Pow(Pow(256, |secret|), threshold - 1 - |sel|)
  {
    hide Fits, Strings, DataAt, Lists, Selection, NumberTheory.Pow;
    var n, missing := |secret|, threshold - 1 - |sel|;
    var ext := Extend(sel, total, missing);
    var choices, all := FittingChoices(secret, threshold, sel, data), Lists(Strings(n), missing);
    var f := map r | r in choices :: DataAt(secret, threshold, r, ext);
    assert f.Keys == choices;
    StringsFacts(n);
    forall more ensures more in all <==> |more| == missing && forall k :: 0 <= k < |more| ==> |more[k]| == n {
      ListsMembers(Strings(n), missing, more);
    }
    forall more | more in all ensures more in f.Values {
      var r := ChoiceWith(secret, threshold, total, sel, data, ext, more);
      assert f[r] == more;
    }
    assert f.Values == all;
    forall r, r' | r in f && r' in f && f[r] == f[r'] ensures r == r' {
      SameChoice(secret, threshold, total, sel, data, ext, r, r');
    }
    SameSize(f);
    ListsSize(Strings(n), missing);
  }
}
