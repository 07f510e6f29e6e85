/** Fresh citation keys for an entry whose key is already taken:
    `key_1`, `key_2`, ... are probed in order and the first free one wins. */
module KeyAllocation {
  import opened Biblatex

  function Digit(d: nat): (c: char)
    requires d < 10
    ensures '0' <= c <= '9' && c as int - '0' as int == d
  {
    "0123456789"[d]
  }

  /** Decimal rendering of a number, as Rust's `Display` writes integers:
      digits only, with no leading zero. */
  function NatToString(n: nat): (s: string)
    ensures 1 <= |s|
    ensures forall i :: 0 <= i < |s| ==> '0' <= s[i] <= '9'
    ensures s[0] == '0' ==> n == 0
    decreases n
  {
    if n < 10 then [Digit(n)]
    else
      var r := NatToString(n / 10) + [Digit(n % 10)];
      assert r[0] == NatToString(n / 10)[0];
      r
  }

  /** The number a string of decimal digits denotes. */
  function DecimalValue(s: string): nat
    requires forall i :: 0 <= i < |s| ==> '0' <= s[i] <= '9'
  {
    if s == [] then 0
    else DecimalValue(s[..|s| - 1]) * 10 + (s[|s| - 1] as int - '0' as int)
  }

  /** Reading the rendering back gives the number. */
  lemma {:induction false} NatToStringRoundTrip(n: nat)
    ensures DecimalValue(NatToString(n)) == n
    decreases n
  {
    if n < 10 {
      assert [Digit(n)][..0] == [];
    } else {
      NatToStringRoundTrip(n / 10);
      var s := NatToString(n);
      assert s[..|s| - 1] == NatToString(n / 10);
    }
  }

  /** The candidate key `format!("{}_{}", base, n)`: the base, an underscore,
      then the decimal digits of n. */
  function Suffixed(base: string, n: nat): (r: string)
    ensures |base| + 1 < |r| && r[..|base|] == base && r[|base|] == '_'
    ensures r[|base| + 1..] == NatToString(n)
  {
    base + "_" + NatToString(n)
  }

  /** Different counters give different candidate keys for one base. */
  lemma SuffixedInjective(base: string, m: nat, n: nat)
    requires Suffixed(base, m) == Suffixed(base, n)
    ensures m == n
  {
    NatToStringRoundTrip(m);
    NatToStringRoundTrip(n);
  }

  function Pow10(k: nat): (p: nat)
    ensures 1 <= p
  {
    if k == 0 then 1 else 10 * Pow10(k - 1)
  }

  lemma {:induction false} Pow10Monotone(a: nat, b: nat)
    requires a <= b
    ensures Pow10(a) <= Pow10(b)
    decreases b - a
  {
    if a < b {
      Pow10Monotone(a, b - 1);
    }
  }

  /** A number is below 10 to the power of its count of decimal digits. */
  lemma {:induction false} NatToStringBound(n: nat)
    ensures n < Pow10(|NatToString(n)|)
    decreases n
  {
    if n >= 10 {
      NatToStringBound(n / 10);
      var k := |NatToString(n / 10)|;
      assert |NatToString(n)| == k + 1;
      assert n / 10 + 1 <= Pow10(k);
      assert n < 10 * (n / 10 + 1);
    }
  }

  /** The length of the longest key in a list of entries. */
  function MaxKeyLen(s: seq<Entry>): (m: nat)
    ensures forall i :: 0 <= i < |s| ==> |s[i].key| <= m
  {
    if s == [] then 0
    else
      var rest := MaxKeyLen(s[1..]);
      assert forall i :: 1 <= i < |s| ==> s[i] == s[1..][i - 1];
      if |s[0].key| > rest then |s[0].key| else rest
  }

  /** A probe that is already taken has a suffix below 10^(longest key length):
      past that bound every candidate is longer than every key. */
  lemma TakenSuffixBounded(base: string, s: seq<Entry>, n: nat)
    requires Suffixed(base, n) in Keys(s)
    ensures n < Pow10(MaxKeyLen(s))
  {
    var i :| 0 <= i < |s| && s[i].key == Suffixed(base, n);
    assert |NatToString(n)| <= MaxKeyLen(s);
    NatToStringBound(n);
    Pow10Monotone(|NatToString(n)|, MaxKeyLen(s));
  }

  /** The probe loop started at `n`: the first suffix from `n` on whose key is free. */
  function ProbeFrom(base: string, s: seq<Entry>, n: nat): (r: nat)
    requires 1 <= n
    ensures n <= r
    ensures Suffixed(base, r) !in Keys(s)
    ensures forall m :: n <= m < r ==> Suffixed(base, m) in Keys(s)
    decreases Pow10(MaxKeyLen(s)) - n
  {
    if Suffixed(base, n) !in Keys(s) then n
    else
      TakenSuffixBounded(base, s, n);
      ProbeFrom(base, s, n + 1)
  }

  /** The least n >= 1 for which `base_n` is not a key of `s`. */
  function FirstFreeSuffix(base: string, s: seq<Entry>): (n: nat)
    ensures 1 <= n
    ensures Suffixed(base, n) !in Keys(s)
    ensures forall m :: 1 <= m < n ==> Suffixed(base, m) in Keys(s)
  {
    ProbeFrom(base, s, 1)
  }

  /** `get_new_citation_key`, with an unbounded counter (see NewCitationKeyU8
      for the 8-bit counter of the source). */
  method GetNewCitationKey(oldKey: string, bibliography: Bibliography) returns (newKey: string)
    ensures newKey == Suffixed(oldKey, FirstFreeSuffix(oldKey, bibliography.entries))
    ensures newKey !in Keys(bibliography.entries)
    ensures |oldKey| < |newKey| && newKey[..|oldKey|] == oldKey
  {
    var tryNum: nat := 1;
    while true
      invariant 1 <= tryNum <= FirstFreeSuffix(oldKey, bibliography.entries)
      decreases FirstFreeSuffix(oldKey, bibliography.entries) - tryNum
    {
      newKey := Suffixed(oldKey, tryNum);
      var present := bibliography.Get(newKey);
      if present.Some? {
        tryNum := tryNum + 1;
      } else {
        return;
      }
    }
  }

  /** The probe loop as written, from `n`, with a `u8` counter: when `base_255`
      is taken too, `try_num += 1` overflows. `None` stands for that overflow. */
  function ProbeFromU8(base: string, s: seq<Entry>, n: nat): (r: Option<string>)
    requires 1 <= n <= 255
    ensures r.Some? ==> r.value == Suffixed(base, ProbeFrom(base, s, n))
    ensures r.None? <==> forall m :: n <= m <= 255 ==> Suffixed(base, m) in Keys(s)
    decreases 255 - n
  {
    if Suffixed(base, n) !in Keys(s) then Some(Suffixed(base, n))
    else if n == 255 then None
    else ProbeFromU8(base, s, n + 1)
  }

  /** `get_new_citation_key` as written, with its 8-bit counter. */
  function NewCitationKeyU8(base: string, s: seq<Entry>): (r: Option<string>)
    ensures r.Some? ==> r.value == Suffixed(base, FirstFreeSuffix(base, s))
    ensures r.None? <==> forall m :: 1 <= m <= 255 ==> Suffixed(base, m) in Keys(s)
  {
    ProbeFromU8(base, s, 1)
  }

  function Plain(key: string): Entry
  {
    Entry(key, None, None, map[])
  }

  /** A bibliography holding `base` and `base_1` ... `base_255`. */
  function Exhausted(base: string): (s: seq<Entry>)
    ensures |s| == 256
  {
    seq(256, i requires 0 <= i < 256 => if i == 0 then Plain(base) else Plain(Suffixed(base, i)))
  }

  /** With 255 suffixes of a key taken, the 8-bit counter overflows, although
      a free key exists: the unbounded allocator returns `base_n` for some n > 255. */
  lemma U8CounterOverflows(base: string)
    ensures NewCitationKeyU8(base, Exhausted(base)) == None
    ensures FirstFreeSuffix(base, Exhausted(base)) > 255
    ensures Suffixed(base, FirstFreeSuffix(base, Exhausted(base))) !in Keys(Exhausted(base))
  {
    var s := Exhausted(base);
    forall m | 1 <= m <= 255
      ensures Suffixed(base, m) in Keys(s)
    {
      assert s[m].key == Suffixed(base, m);
    }
  }

  /** The allocation `test_get_new_citation_key` expects for `Carnap1942`. */
  lemma CarnapKeys()
    ensures Suffixed("Carnap1942", FirstFreeSuffix("Carnap1942", [Plain("Carnap1942")])) == "Carnap1942_1"
    ensures Suffixed("Carnap1942", FirstFreeSuffix("Carnap1942", [Plain("Carnap1942"), Plain("Carnap1942_1")]))
         == "Carnap1942_2"
  {
    var one := [Plain("Carnap1942")];
    var two := [Plain("Carnap1942"), Plain("Carnap1942_1")];
    assert Suffixed("Carnap1942", 1) == "Carnap1942_1";
    assert Suffixed("Carnap1942", 2) == "Carnap1942_2";
    assert two[1].key == "Carnap1942_1";
    var n1 := FirstFreeSuffix("Carnap1942", one);
    var n2 := FirstFreeSuffix("Carnap1942", two);
    assert n1 == 1;
    assert n2 == 2;
  }
}
