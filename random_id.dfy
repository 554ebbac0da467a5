/**
 * `random(e)` of the utils module: an id of `e` lower-case hexadecimal digits, one per draw of
 * `16 * Math.random() | 0`. The random draws are an input here (each a number below 16).
 */
module RandomId {

  predicate IsHexDigit(ch: char) {
    '0' <= ch <= '9' || 'a' <= ch <= 'f'
  }

  /** `n.toString(16)` for a single digit n < 16. */
  function HexDigit(n: nat): (ch: char)
    requires n < 16
    ensures IsHexDigit(ch) && (ch <= '9' <==> n < 10)
  {
    if n < 10 then '0' + n as char else 'a' + (n - 10) as char
  }

  /** The number a hexadecimal digit stands for. */
  function DigitValue(ch: char): (n: nat)
    requires IsHexDigit(ch)
    ensures n < 16 && HexDigit(n) == ch
  {
    if ch <= '9' then (ch - '0') as nat else (ch - 'a') as nat + 10
  }

  /** Reading a digit back gives the number it was written from. */
  lemma DigitRoundTrip(n: nat)
    requires n < 16
    ensures DigitValue(HexDigit(n)) == n
  {
  }

  predicate Draws(ds: seq<nat>) {
    forall j :: 0 <= j < |ds| ==> ds[j] < 16
  }

  /** The digits of the draws, joined. */
  function Hex(ds: seq<nat>): (id: string)
    requires Draws(ds)
  {
    seq(|ds|, j requires 0 <= j < |ds| => HexDigit(ds[j]))
  }

  /** The draws read back from an id. */
  function Values(id: string): (ds: seq<nat>)
    requires forall j :: 0 <= j < |id| ==> IsHexDigit(id[j])
    ensures Draws(ds)
  {
    seq(|id|, j requires 0 <= j < |id| => DigitValue(id[j]))
  }

  /** The id gives back the draws it was made from, so different draws make different ids. */
  lemma HexRoundTrip(ds: seq<nat>)
    requires Draws(ds)
    ensures var id := Hex(ds);
      (forall j :: 0 <= j < |id| ==> IsHexDigit(id[j])) && Values(id) == ds
  {
    var id := Hex(ds);
    forall j | 0 <= j < |ds| ensures DigitValue(id[j]) == ds[j] {
      assert id[j] == HexDigit(ds[j]);
      DigitRoundTrip(ds[j]);
    }
  }

  /** And every id of hexadecimal digits is made from the draws read back from it. */
  lemma ValuesRoundTrip(id: string)
    requires forall j :: 0 <= j < |id| ==> IsHexDigit(id[j])
    ensures Hex(Values(id)) == id
  {
    var ds := Values(id);
    forall j | 0 <= j < |id| ensures Hex(ds)[j] == id[j] {
      assert ds[j] == DigitValue(id[j]);
    }
  }

  lemma HexInjective(ds: seq<nat>, es: seq<nat>)
    requires Draws(ds) && Draws(es) && Hex(ds) == Hex(es)
    ensures ds == es
  {
    HexRoundTrip(ds);
    HexRoundTrip(es);
  }

  /** The loop of `random`: one digit per draw, appended in order. A negative `e` gives "" as the loop does not run. */
  method Random(e: int, draws: seq<nat>) returns (id: string)
    requires e <= |draws| && Draws(draws)
    ensures |id| == if e < 0 then 0 else e
    ensures forall j :: 0 <= j < |id| ==> IsHexDigit(id[j])
    ensures id == Hex(draws[..|id|])
  {
    id := "";
    var n := 0;
    while n < e
      invariant 0 <= n <= if e < 0 then 0 else e
      invariant id == Hex(draws[..n])
    {
      id := id + [HexDigit(draws[n])];
      n := n + 1;
    }
  }
}
