/** The hash of directory names (vfs/gfs/directory_hashmap.rs), and what doubling the number of buckets does to it. */
module Hashes {
  import opened Multiples
  import opened Texts

  const U64: nat := 0x1_0000_0000_0000_0000

  /** One byte is mixed in, over 64 bits. */
  function Mixed(h: nat, b: Byte): nat { (h + (b as nat) * 577) % U64 * 11 % U64 }

  /** `hash_str`. */
  function Hash(name: seq<Byte>, n: nat): (h: nat)
    requires n > 0
    ensures h < n
  {
    if name == [] then 0
    else
      var k := |name| - 1;
      Mixed(Hash(name[..k], n), name[k]) % n
  }

  method HashStr(name: seq<Byte>, n: nat) returns (h: nat)
    requires n > 0
    ensures h == Hash(name, n) < n
  {
    h := 0;
    for i := 0 to |name|
      invariant h == Hash(name[..i], n)
    {
      assert name[..i + 1][..i] == name[..i];
      h := (h + (name[i] as nat) * 577) % U64;
      h := h * 11 % U64 % n;
    }
    assert name[..|name|] == name;
  }

  /** With twice the buckets a name belongs to its old bucket or to the one `n` further on. */
  lemma {:induction false} HashDoubles(name: seq<Byte>, n: nat)
    requires 0 < n < 0x1_0000_0000
    ensures Hash(name, 2 * n) == Hash(name, n) || Hash(name, 2 * n) == Hash(name, n) + n
  {
    hide Mixed;
    if name != [] {
      var k := |name| - 1;
      HashDoubles(name[..k], n);
      NotWrapped(Hash(name[..k], n), name[k]);
      NotWrapped(Hash(name[..k], 2 * n), name[k]);
      StepDoubles(Hash(name[..k], n), Hash(name[..k], 2 * n), (name[k] as nat) * 577, n);
    }
  }

  /** The name "a" moves when 640 buckets become 1280. */
  lemma ShortNameMoves()
    ensures Hash([97], 640) == 619 && Hash([97], 1280) == 619 + 640
  {
    var name: seq<Byte> := [97];
    assert name[..0] == [];
  }

  /** With fewer than 2^33 buckets the arithmetic stays within 64 bits. */
  lemma NotWrapped(h: nat, b: Byte)
    requires h < 0x2_0000_0000
    ensures Mixed(h, b) == (h + (b as nat) * 577) * 11
  {
  }

  lemma StepDoubles(h: nat, h2: nat, step: nat, n: nat)
    requires n > 0 && (h2 == h || h2 == h + n)
    ensures var x, y := (h + step) * 11 % n, (h2 + step) * 11 % (2 * n); y == x || y == x + n
  {
    ModDoubles((h2 + step) * 11, n, 2 * n);
    if h2 == h + n { ModPlus((h + step) * 11, 11, n); }
  }

  lemma ModDoubles(x: nat, n: nat, m: nat)
    requires n > 0 && m == 2 * n
    ensures x % m == x % n || x % m == x % n + n
  {
    var q, r := DivMod(x, m);
    ModHalves(x, n, m, q, r);
  }

  lemma DivMod(x: nat, m: nat) returns (q: nat, r: nat)
    requires m > 0
    ensures x == q * m + r && r == x % m && r < m
  {
    q, r := x / m, x % m;
  }

  lemma ModHalves(x: nat, n: nat, m: nat, q: nat, r: nat)
    requires n > 0 && m == 2 * n && x == q * m + r && r < m
    ensures r == x % n || r == x % n + n
  {
    Doubled(q, n);
    if r < n { Remainder(x, n, 2 * q, r); } else { Remainder(x, n, 2 * q + 1, r - n); }
  }

  lemma Doubled(q: nat, n: nat)
    ensures q * (2 * n) == (2 * q) * n && (2 * q + 1) * n == (2 * q) * n + n
  {
  }

  lemma ModPlus(x: nat, k: nat, n: nat)
    requires n > 0
    ensures (x + k * n) % n == x % n
  {
    assert x + k * n == (x / n + k) * n + x % n;
    Remainder(x + k * n, n, x / n + k, x % n);
  }
}
