/** The two conversions the game makes between a non-negative number and
    its decimal digits: `String(n).split("").map(Number)` (ToDigits) and
    `parseInt(digits.join(""))` (FromDigits). */
module Digits {
  import opened Common

  /** The digits of `String(n)` for a non-negative integer `n`: at least one
      digit, and no leading zero unless `n` is 0 itself. */
  function ToDigits(n: nat): (r: seq<int>)
    ensures 1 <= |r| && AllDigits(r)
    ensures |r| > 1 ==> r[0] != 0
    decreases n
  {
    if n < 10 then [n] else ToDigits(n / 10) + [n % 10]
  }

  /** `parseInt` of the concatenated digits, most significant first. */
  function FromDigits(ds: seq<int>): (r: int)
    requires AllDigits(ds)
    ensures 0 <= r
    ensures |ds| > 0 && ds[0] != 0 ==> r > 0
    decreases |ds|
  {
    if ds == [] then 0
    else FromDigits(ds[..|ds| - 1]) * 10 + ds[|ds| - 1]
  }

  /** Appending digit `d` to `m` is undone by dividing by ten. */
  lemma ShiftDigit(m: nat, d: int)
    requires 0 <= d < 10
    ensures (m * 10 + d) / 10 == m && (m * 10 + d) % 10 == d
  {
  }

  /** Joining digits without a leading zero and splitting the decimal text
      of the number parsed from them gives the same digits back. */
  lemma {:induction false} SplitAfterJoin(ds: seq<int>)
    requires AllDigits(ds) && |ds| >= 1
    requires |ds| > 1 ==> ds[0] != 0
    ensures ToDigits(FromDigits(ds)) == ds
    decreases |ds|
  {
    if |ds| == 1 {
      assert ds[..0] == [];
    } else {
      var p := ds[..|ds| - 1];
      var d := ds[|ds| - 1];
      assert p[0] == ds[0];
      SplitAfterJoin(p);
      var m := FromDigits(p);
      var n := m * 10 + d;
      assert m > 0;
      ShiftDigit(m, d);
      assert ToDigits(n) == ToDigits(m) + [d];
      assert ds == p + [d];
    }
  }

  /** Parsing the decimal text of a number gives the number back. */
  lemma {:induction false} JoinAfterSplit(n: nat)
    ensures FromDigits(ToDigits(n)) == n
    decreases n
  {
    if n >= 10 {
      JoinAfterSplit(n / 10);
      var ds := ToDigits(n);
      assert ds[..|ds| - 1] == ToDigits(n / 10);
    }
  }
}
