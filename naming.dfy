/** File names the workers agree on: intermediate files "mr-<map><reduce>"
    (the two numbers written back to back, with no separator) and output
    files "mr-out-<reduce>". */
module Naming {
  import opened Rpc

  predicate IsDigit(c: char) {
    '0' <= c <= '9'
  }

  function DigitChar(d: nat): (c: char)
    requires d < 10
    ensures IsDigit(c)
  {
    "0123456789"[d]
  }

  function DigitValue(c: char): (d: nat)
    requires IsDigit(c)
    ensures d < 10
  {
    (c as int - '0' as int) as nat
  }

  /** Go's `%d` of a non-negative number: its decimal digits, no leading
      zero. */
  function Decimal(n: nat): (s: string)
    ensures |s| >= 1
    ensures forall i :: 0 <= i < |s| ==> IsDigit(s[i])
    ensures s[0] == '0' ==> n == 0
    ensures n < 10 <==> |s| == 1
  {
    if n < 10 then [DigitChar(n)] else Decimal(n / 10) + [DigitChar(n % 10)]
  }

  /** The number a string of digits denotes. */
  function ParseDecimal(s: string): nat
    requires forall i :: 0 <= i < |s| ==> IsDigit(s[i])
  {
    if s == [] then 0 else 10 * ParseDecimal(s[..|s| - 1]) + DigitValue(s[|s| - 1])
  }

  lemma DigitRoundTrip(d: nat)
    requires d < 10
    ensures DigitValue(DigitChar(d)) == d
  {
  }

  /** Reading the digits back gives the number. */
  lemma {:induction false} DecimalRoundTrip(n: nat)
    ensures ParseDecimal(Decimal(n)) == n
  {
    var s := Decimal(n);
    DigitRoundTrip(n % 10);
    if n >= 10 {
      DecimalRoundTrip(n / 10);
      assert s[..|s| - 1] == Decimal(n / 10);
    } else {
      assert s[..|s| - 1] == [];
    }
  }

  lemma DecimalInjective(m: nat, n: nat)
    requires Decimal(m) == Decimal(n)
    ensures m == n
  {
    DecimalRoundTrip(m);
    DecimalRoundTrip(n);
  }

  /** The name a map task writes bucket `r` to, in its working directory. */
  function WriteName(mapId: nat, r: nat): (w: string)
    ensures |w| >= 5 && w[..3] == "mr-"
    ensures forall k :: 3 <= k < |w| ==> IsDigit(w[k])
  {
    "mr-" + Decimal(mapId) + Decimal(r)
  }

  /** The name a reduce task opens for map task `i`: the map worker's
      directory, then the intermediate name. */
  function ReadName(m: Machine, i: nat, r: nat): (name: string)
    ensures |name| >= |m.path| + 6
    ensures name[..|m.path|] == m.path && name[|m.path|..|m.path| + 4] == "/mr-"
    ensures forall k :: |m.path| + 4 <= k < |name| ==> IsDigit(name[k])
  {
    var name := m.path + "/mr-" + Decimal(i) + Decimal(r);
    assert name[|m.path|..|m.path| + 4] == (m.path + "/mr-")[|m.path|..];
    name
  }

  /** Where reduce task `r` publishes its output. */
  function OutputName(cwd: string, r: nat): (name: string)
    ensures |name| >= |cwd| + 9
    ensures name[..|cwd|] == cwd && name[|cwd|..|cwd| + 8] == "/mr-out-"
    ensures forall k :: |cwd| + 8 <= k < |name| ==> IsDigit(name[k])
  {
    cwd + "/mr-out-" + Decimal(r)
  }

  /** A reduce task looks for a map output exactly where that map task wrote
      it, when the locator holds the map worker's working directory. */
  lemma ReadFindsWritten(cwd: string, i: nat, r: nat)
    ensures ReadName(Machine(cwd), i, r) == cwd + "/" + WriteName(i, r)
  {
  }

  /** Without a separator, different (map, reduce) pairs can share a name:
      map task 1's bucket 12 and map task 11's bucket 2 are both "mr-112". */
  lemma WriteNameCollides()
    ensures WriteName(1, 12) == WriteName(11, 2) == "mr-112"
  {
    assert Decimal(12) == Decimal(1) + Decimal(2);
    assert Decimal(11) == Decimal(1) + Decimal(1);
  }

  /** Names do determine the pair when the two map ids have equally many
      digits, in particular when every id is below 10. */
  lemma WriteNameInjective(i: nat, r: nat, i': nat, r': nat)
    requires |Decimal(i)| == |Decimal(i')|
    ensures WriteName(i, r) == WriteName(i', r') <==> i == i' && r == r'
  {
    if WriteName(i, r) == WriteName(i', r') {
      var w, w' := WriteName(i, r), WriteName(i', r');
      var n := |Decimal(i)|;
      assert Decimal(i) == w[3..3 + n] == w'[3..3 + n] == Decimal(i');
      assert Decimal(r) == w[3 + n..] == w'[3 + n..] == Decimal(r');
      DecimalInjective(i, i');
      DecimalInjective(r, r');
    }
  }

  /** One map task never writes two buckets under one name. */
  lemma WriteNameDistinctBuckets(i: nat, r: nat, r': nat)
    requires r != r'
    ensures WriteName(i, r) != WriteName(i, r')
  {
    WriteNameInjective(i, r, i, r');
  }

  /** An output file never has the name of an intermediate file in the same
      directory: after "mr-" one has the letter 'o', the other a digit. */
  lemma OutputNotIntermediate(cwd: string, r: nat, i: nat, r': nat)
    ensures OutputName(cwd, r) != cwd + "/" + WriteName(i, r')
  {
    var k := |cwd| + 4;
    assert OutputName(cwd, r)[k] == 'o';
    assert (cwd + "/" + WriteName(i, r'))[k] == Decimal(i)[0];
  }
}
