/** The SHA-crypt password scheme, with the digest functions left open.  Bytes are characters below
    256. */
module ShaCrypt {
  import opened CText
  import opened SeqFacts

  predicate IsBytes(s: string) { forall i :: 0 <= i < |s| ==> s[i] as int < 256 }

  datatype Magic = Sha256 | Sha512

  function Size(m: Magic): nat { if m.Sha256? then 32 else 64 }

  // ---- Drepper's description ----

  /** n bytes of d repeated. */
  function Cyclic(d: string, n: nat): (r: string)
    requires |d| > 0
    ensures |r| == n && forall k :: 0 <= k < n ==> r[k] == d[k % |d|]
  {
    if n == 0 then "" else Cyclic(d, n - 1) + [d[(n - 1) % |d|]]
  }

  function Repeat(s: string, n: nat): string {
    if n == 0 then "" else Repeat(s, n - 1) + s
  }

  /** n copies, one after the other. */
  lemma {:induction false} RepeatCopies(s: string, n: nat, i: nat)
    requires i < n
    ensures |Repeat(s, n)| == n * |s| && 0 <= i * |s| <= (i + 1) * |s| <= n * |s| && Repeat(s, n)[i * |s|..(i + 1) * |s|] == s
  {
    RepeatLength(s, i);
    RepeatLength(s, n - 1);
    assert n * |s| == (n - 1) * |s| + |s| && (i + 1) * |s| == i * |s| + |s|;
    if i < n - 1 {
      RepeatCopies(s, n - 1, i);
      assert Repeat(s, n)[i * |s|..(i + 1) * |s|] == Repeat(s, n - 1)[i * |s|..(i + 1) * |s|];
    }
  }

  lemma {:induction false} RepeatLength(s: string, n: nat)
    ensures |Repeat(s, n)| == n * |s|
  {
    if n > 0 {
      RepeatLength(s, n - 1);
      assert n * |s| == (n - 1) * |s| + |s|;
    }
  }

  /** For each bit of n from the lowest: the digest for a one, the password for a zero. */
  function ByBits(n: nat, digest: string, passwd: string): string {
    if n == 0 then "" else (if n % 2 == 1 then digest else passwd) + ByBits(n / 2, digest, passwd)
  }

  lemma {:induction false} BitByBit(n: nat, digest: string, passwd: string)
    ensures n > 0 ==> ByBits(2 * n, digest, passwd) == passwd + ByBits(n, digest, passwd)
    ensures ByBits(2 * n + 1, digest, passwd) == digest + ByBits(n, digest, passwd)
  {
    LowestBit(2 * n, n, digest, passwd);
    LowestBit(2 * n + 1, n, digest, passwd);
  }

  lemma {:induction false} LowestBit(m: nat, n: nat, digest: string, passwd: string)
    requires m > 0 ==> n == m / 2
    ensures m > 0 ==> ByBits(m, digest, passwd) == (if m % 2 == 1 then digest else passwd) + ByBits(n, digest, passwd)
  {
  }

  function DigestB(sha: string -> string, passwd: string, salt: string): string { sha(passwd + salt + passwd) }

  function DigestA(sha: string -> string, passwd: string, salt: string): string
    requires forall x :: |sha(x)| > 0
  {
    var b := DigestB(sha, passwd, salt);
    sha(passwd + salt + Cyclic(b, |passwd|) + ByBits(|passwd|, b, passwd))
  }

  function SequenceP(sha: string -> string, passwd: string): string
    requires forall x :: |sha(x)| > 0
  {
    Cyclic(sha(Repeat(passwd, |passwd|)), |passwd|)
  }

  function SequenceS(sha: string -> string, salt: string, a: string): string
    requires a != "" && forall x :: |sha(x)| > 0
  {
    Cyclic(sha(Repeat(salt, 16 + a[0] as int)), |salt|)
  }

  /** What round n digests. */
  function RoundInput(n: nat, c: string, p: string, s: string): string {
    (if n % 2 == 1 then p else c) + (if n % 3 != 0 then s else "") + (if n % 7 != 0 then p else "") + (if n % 2 == 1 then c else p)
  }

  /** The input of a round, by its number: at a multiple of 3 without the salt sequence, at a multiple
      of 7 without the second password sequence, and begun by the password in odd rounds. */
  lemma {:induction false} RoundPieces(n: nat, c: string, p: string, s: string)
    ensures n % 3 == 0 && n % 7 == 0 ==> RoundInput(n, c, p, s) == if n % 2 == 0 then c + p else p + c
    ensures n % 3 == 0 && n % 7 != 0 ==> RoundInput(n, c, p, s) == if n % 2 == 0 then c + p + p else p + p + c
    ensures n % 3 != 0 && n % 7 == 0 ==> RoundInput(n, c, p, s) == if n % 2 == 0 then c + s + p else p + s + c
    ensures n % 3 != 0 && n % 7 != 0 ==> RoundInput(n, c, p, s) == if n % 2 == 0 then c + s + p + p else p + s + p + c
  {
    Whole(c);
    Whole(p);
    Whole(c + s);
    Whole(p + s);
  }

  function Rounds(sha: string -> string, n: nat, a: string, p: string, s: string): string {
    if n == 0 then a else sha(RoundInput(n - 1, Rounds(sha, n - 1, a, p, s), p, s))
  }

  function Digest(sha: string -> string, passwd: string, salt: string, rounds: nat): string
    requires forall x :: |sha(x)| > 0
  {
    var a := DigestA(sha, passwd, salt);
    Rounds(sha, rounds, a, SequenceP(sha, passwd), SequenceS(sha, salt, a))
  }

  // ---- the feeding loops ----

  lemma {:induction false} MulAtLeast(a: int, n: nat)
    requires a >= 1
    ensures a * n >= n
  {
    assert a * n == (a - 1) * n + n;
  }

  lemma {:induction false} DivisionUnique(k: nat, n: nat, q: nat, r: nat)
    requires n > 0 && r < n && k == q * n + r
    ensures k % n == r
  {
    var q', r' := k / n, k % n;
    assert k == q' * n + r';
    assert (q - q') * n == r' - r;
    assert (q' - q) * n == r - r';
    if q > q' {
      MulAtLeast(q - q', n);
    } else if q < q' {
      MulAtLeast(q' - q, n);
    }
  }

  lemma {:induction false} ModShift(k: nat, n: nat)
    requires n > 0
    ensures (k + n) % n == k % n
  {
    var q := k / n;
    assert (q + 1) * n == q * n + n;
    DivisionUnique(k + n, n, q + 1, k % n);
  }

  lemma {:induction false} CyclicPeel(d: string, n: nat)
    requires 0 < |d| <= n
    ensures Cyclic(d, n) == d + Cyclic(d, n - |d|)
  {
    if n == |d| {
      CyclicShort(d, n);
      assert d[..n] == d && d + Cyclic(d, 0) == d;
    } else {
      CyclicPeel(d, n - 1);
      ModShift(n - 1 - |d|, |d|);
      assert d + (Cyclic(d, n - 1 - |d|) + [d[(n - 1) % |d|]]) == d + Cyclic(d, n - 1 - |d|) + [d[(n - 1) % |d|]];
    }
  }

  lemma {:induction false} SmallMod(k: nat, n: nat)
    requires k < n
    ensures k % n == k
  {
  }

  lemma {:induction false} CyclicShort(d: string, n: nat)
    requires 0 < |d| && n <= |d|
    ensures Cyclic(d, n) == d[..n]
  {
    forall k | 0 <= k < n ensures Cyclic(d, n)[k] == d[k] { SmallMod(k, |d|); }
  }

  /** The first digest is fed exactly as many bytes of B as the password is long. */
  method FeedCyclic(md: string, buf: string, len: nat) returns (md': string)
    requires buf != ""
    ensures md' == md + Cyclic(buf, len)
  {
    var n := len;
    md' := md;
    assert md + "" == md;
    while n > |buf|
      invariant 0 <= n <= len && md' + Cyclic(buf, n) == md + Cyclic(buf, len)
    {
      CyclicPeel(buf, n);
      assert md' + (buf + Cyclic(buf, n - |buf|)) == md' + buf + Cyclic(buf, n - |buf|);
      md' := md' + buf;
      n := n - |buf|;
    }
    CyclicShort(buf, n);
    md' := md' + buf[..n];
  }

  method FeedBits(md: string, buf: string, passwd: string) returns (md': string)
    ensures md' == md + ByBits(|passwd|, buf, passwd)
  {
    var n := |passwd|;
    md' := md;
    while n > 0
      invariant n >= 0 && md' + ByBits(n, buf, passwd) == md + ByBits(|passwd|, buf, passwd)
    {
      var piece := if n % 2 == 1 then buf else passwd;
      assert md' + (piece + ByBits(n / 2, buf, passwd)) == md' + piece + ByBits(n / 2, buf, passwd);
      md' := md' + piece;
      n := n / 2;
    }
    assert md' + "" == md';
  }

  method FeedRepeat(s: string, times: nat) returns (md: string)
    ensures md == Repeat(s, times)
  {
    md := "";
    var n := times;
    while n > 0
      invariant 0 <= n <= times && md == Repeat(s, times - n)
    {
      md := md + s;
      n := n - 1;
    }
  }

  /** The memcpy loop behind the P and S sequences. */
  method FillCyclic(d: string, out: array<char>)
    requires d != ""
    modifies out
    ensures out[..] == Cyclic(d, out.Length)
  {
    var cp, n := 0, out.Length;
    while n > |d|
      invariant 0 <= n && cp == out.Length - n
      invariant cp % |d| == 0
      invariant out[..cp] == Cyclic(d, cp)
    {
      CopyAt(d, out, cp, |d|);
      CyclicBlock(d, cp, |d|);
      ModShift(cp, |d|);
      cp, n := cp + |d|, n - |d|;
    }
    CopyAt(d, out, cp, n);
    CyclicBlock(d, cp, n);
    assert out[..out.Length] == out[..];
  }

  /** memcpy(out + cp, d, n) */
  method CopyAt(d: string, out: array<char>, cp: nat, n: nat)
    requires n <= |d| && cp + n <= out.Length
    modifies out
    ensures out[..cp + n] == old(out[..cp]) + d[..n]
  {
    forall i | 0 <= i < n { out[cp + i] := d[i]; }
    assert out[..cp] == old(out[..cp]);
    forall i | 0 <= i < n ensures out[cp..cp + n][i] == d[i] {
      assert out[cp + i] == d[i];
    }
    assert out[..cp + n] == out[..cp] + out[cp..cp + n];
  }

  lemma {:induction false} CyclicBlock(d: string, cp: nat, n: nat)
    requires n <= |d| && |d| > 0 && cp % |d| == 0
    ensures Cyclic(d, cp) + d[..n] == Cyclic(d, cp + n)
  {
    Block(cp, |d|);
    var all := Cyclic(d, cp) + d[..n];
    forall k | 0 <= k < cp + n ensures all[k] == Cyclic(d, cp + n)[k] {
    }
  }

  /** Within a block that starts at a multiple of n the remainder counts up from zero. */
  lemma {:induction false} Block(cp: nat, n: nat)
    requires n > 0 && cp % n == 0
    ensures forall k :: cp <= k < cp + n ==> k % n == k - cp
  {
    forall k | cp <= k < cp + n ensures k % n == k - cp {
      var q := cp / n;
      assert cp == q * n;
      assert k == q * n + (k - cp);
      DivisionUnique(k, n, q, k - cp);
    }
  }

  // ---- the output alphabet ----

  /** cov_2char: "./", the digits, the capitals, the small letters. */
  function Cov(v: nat): (c: char)
    requires v < 64
    ensures Uncov(c) == v
  {
    if v < 12 then ('.' as int + v) as char
    else if v < 38 then ('A' as int + v - 12) as char
    else ('a' as int + v - 38) as char
  }

  /** The characters in their order. */
  lemma {:induction false} CovTable(v: nat)
    requires v < 26
    ensures v < 12 ==> Cov(v) == "./0123456789"[v]
    ensures Cov(12 + v) == "ABCDEFGHIJKLMNOPQRSTUVWXYZ"[v]
    ensures Cov(38 + v) == "abcdefghijklmnopqrstuvwxyz"[v]
  {
    assert v == 0 || v == 1 || v == 2 || v == 3 || v == 4 || v == 5 || v == 6 || v == 7 || v == 8
      || v == 9 || v == 10 || v == 11 || v == 12 || v == 13 || v == 14 || v == 15 || v == 16 || v == 17
      || v == 18 || v == 19 || v == 20 || v == 21 || v == 22 || v == 23 || v == 24 || v == 25;
  }

  function Uncov(c: char): nat {
    if '.' <= c <= '9' then c as int - '.' as int
    else if 'A' <= c <= 'Z' then c as int - 'A' as int + 12
    else if 'a' <= c <= 'z' then c as int - 'a' as int + 38
    else 0
  }

  /** n characters of six bits, lowest first. */
  function Chars(w: nat, n: nat): (s: string)
    ensures |s| == n
  {
    if n == 0 then "" else [Cov(w % 64)] + Chars(w / 64, n - 1)
  }

  /** Written out for the lengths in use; shorter groups are the beginning of longer ones. */
  lemma {:induction false} FourChars(w: nat, n: nat)
    requires n <= 4
    ensures Chars(w, n) == [Cov(w % 64), Cov(w / 64 % 64), Cov(w / 4096 % 64), Cov(w / 262144 % 64)][..n]
  {
    assert w / 64 / 64 == w / 4096 && w / 4096 / 64 == w / 262144;
    if n > 0 { assert Chars(w, n) == [Cov(w % 64)] + Chars(w / 64, n - 1); }
    if n > 1 { assert Chars(w / 64, n - 1) == [Cov(w / 64 % 64)] + Chars(w / 4096, n - 2); }
    if n > 2 { assert Chars(w / 4096, n - 2) == [Cov(w / 4096 % 64)] + Chars(w / 262144, n - 3); }
  }

  function Value(s: string): nat {
    if s == "" then 0 else Uncov(s[0]) + 64 * Value(s[1..])
  }

  function Pow64(n: nat): nat { if n == 0 then 1 else 64 * Pow64(n - 1) }

  lemma {:induction false} ValueOfChars(w: nat, n: nat)
    requires w < Pow64(n)
    ensures Value(Chars(w, n)) == w
  {
    if n > 0 {
      ValueOfChars(w / 64, n - 1);
      assert Chars(w, n)[1..] == Chars(w / 64, n - 1);
    }
  }

  /** The macro b64_from_24bit on three bytes of the digest; -1 stands for a literal zero. */
  datatype Group = Group(b2: int, b1: int, b0: int, n: nat)

  function At(buf: string, i: int): (v: nat)
    requires i < |buf| && IsBytes(buf)
    ensures v < 256
  {
    if i < 0 then 0 else buf[i] as int
  }

  predicate GroupOk(g: Group, size: nat) {
    && -1 <= g.b2 < size && -1 <= g.b1 < size && -1 <= g.b0 < size
    && (g.n == 4 || (g.n == 3 && g.b2 == -1) || (g.n == 2 && g.b2 == -1 && g.b1 == -1))
  }

  function Word(buf: string, g: Group): nat
    requires GroupOk(g, |buf|) && IsBytes(buf)
  {
    65536 * At(buf, g.b2) + 256 * At(buf, g.b1) + At(buf, g.b0)
  }

  /** The macro's loop. */
  method B64From24bit(buf: string, g: Group) returns (s: string)
    requires GroupOk(g, |buf|) && IsBytes(buf)
    ensures s == Chars(Word(buf, g), g.n)
  {
    var w, i := Word(buf, g), g.n;
    s := "";
    while i > 0
      invariant 0 <= i <= g.n && s + Chars(w, i) == Chars(Word(buf, g), g.n)
    {
      assert s + ([Cov(w % 64)] + Chars(w / 64, i - 1)) == s + [Cov(w % 64)] + Chars(w / 64, i - 1);
      s := s + [Cov(w % 64)];
      w, i := w / 64, i - 1;
    }
    assert s + "" == s;
  }

  function Table(m: Magic): seq<Group> {
    if m.Sha256? then
      [Group(0, 10, 20, 4), Group(21, 1, 11, 4), Group(12, 22, 2, 4), Group(3, 13, 23, 4), Group(24, 4, 14, 4),
       Group(15, 25, 5, 4), Group(6, 16, 26, 4), Group(27, 7, 17, 4), Group(18, 28, 8, 4), Group(9, 19, 29, 4),
       Group(-1, 31, 30, 3)]
    else
      [Group(0, 21, 42, 4), Group(22, 43, 1, 4), Group(44, 2, 23, 4), Group(3, 24, 45, 4), Group(25, 46, 4, 4),
       Group(47, 5, 26, 4), Group(6, 27, 48, 4), Group(28, 49, 7, 4), Group(50, 8, 29, 4), Group(9, 30, 51, 4),
       Group(31, 52, 10, 4), Group(53, 11, 32, 4), Group(12, 33, 54, 4), Group(34, 55, 13, 4), Group(56, 14, 35, 4),
       Group(15, 36, 57, 4), Group(37, 58, 16, 4), Group(59, 17, 38, 4), Group(18, 39, 60, 4), Group(40, 61, 19, 4),
       Group(62, 20, 41, 4), Group(-1, -1, 63, 2)]
  }

  predicate GroupsOk(gs: seq<Group>, size: nat) { forall i :: 0 <= i < |gs| ==> GroupOk(gs[i], size) }

  function Encode(buf: string, gs: seq<Group>): string
    requires GroupsOk(gs, |buf|) && IsBytes(buf)
  {
    if gs == [] then "" else Encode(buf, gs[..|gs| - 1]) + Chars(Word(buf, gs[|gs| - 1]), gs[|gs| - 1].n)
  }

  function Length(gs: seq<Group>): nat {
    if gs == [] then 0 else Length(gs[..|gs| - 1]) + gs[|gs| - 1].n
  }

  lemma {:induction false} EncodeLength(buf: string, gs: seq<Group>)
    requires GroupsOk(gs, |buf|) && IsBytes(buf)
    ensures |Encode(buf, gs)| == Length(gs)
  {
    if gs != [] { EncodeLength(buf, gs[..|gs| - 1]); }
  }

  function Byte(i: int, v: nat): map<int, nat> { if i < 0 then map[] else map[i := v % 256] }

  /** The bytes that a group of characters tells. */
  function GroupBytes(g: Group, w: nat): map<int, nat> {
    Byte(g.b2, w / 65536) + Byte(g.b1, w / 256) + Byte(g.b0, w)
  }

  function Decode(text: string, gs: seq<Group>): map<int, nat>
    requires |text| == Length(gs)
    decreases |gs|
  {
    if gs == [] then map[]
    else
      var front, g := gs[..|gs| - 1], gs[|gs| - 1];
      Decode(text[..Length(front)], front) + GroupBytes(g, Value(text[Length(front)..]))
  }

  lemma {:induction false} Pow64Small()
    ensures Pow64(2) == 4096 && Pow64(3) == 262144 && Pow64(4) == 16777216
  {
    assert Pow64(1) == 64;
  }

  lemma {:induction false} SplitWord(a: nat, b: nat, c: nat)
    requires a < 256 && b < 256 && c < 256
    ensures var w := 65536 * a + 256 * b + c; w / 65536 % 256 == a && w / 256 % 256 == b && w % 256 == c && w < 16777216
  {
    var w := 65536 * a + 256 * b + c;
    assert w / 256 == 256 * a + b;
    assert w / 65536 == a;
  }

  lemma {:induction false} GroupDecodes(buf: string, g: Group, k: int)
    requires GroupOk(g, |buf|) && IsBytes(buf)
    ensures var m := GroupBytes(g, Value(Chars(Word(buf, g), g.n)));
      && (k in m <==> k >= 0 && (k == g.b2 || k == g.b1 || k == g.b0))
      && (k in m ==> m[k] == At(buf, k))
  {
    Pow64Small();
    SplitWord(At(buf, g.b2), At(buf, g.b1), At(buf, g.b0));
    ValueOfChars(Word(buf, g), g.n);
  }

  predicate Covered(gs: seq<Group>, k: int) {
    exists i :: 0 <= i < |gs| && (k == gs[i].b2 || k == gs[i].b1 || k == gs[i].b0)
  }

  lemma {:induction false} DecodesWhatIsCovered(buf: string, gs: seq<Group>, k: nat)
    requires GroupsOk(gs, |buf|) && IsBytes(buf)
    ensures |Encode(buf, gs)| == Length(gs)
    ensures var m := Decode(Encode(buf, gs), gs);
      && (k in m <==> Covered(gs, k))
      && (k in m ==> k < |buf| && m[k] == buf[k] as int)
  {
    EncodeLength(buf, gs);
    if gs != [] {
      var front, g := gs[..|gs| - 1], gs[|gs| - 1];
      var text := Encode(buf, gs);
      DecodesWhatIsCovered(buf, front, k);
      assert text[..Length(front)] == Encode(buf, front);
      assert text[Length(front)..] == Chars(Word(buf, g), g.n);
      GroupDecodes(buf, g, k);
      CoveredSnoc(front, g, k);
      assert gs == front + [g];
    }
  }

  lemma {:induction false} CoveredSnoc(gs: seq<Group>, g: Group, k: int)
    ensures Covered(gs + [g], k) <==> Covered(gs, k) || k == g.b2 || k == g.b1 || k == g.b0
  {
    var all := gs + [g];
    assert all[|gs|] == g;
    if Covered(gs, k) {
      var i :| 0 <= i < |gs| && (k == gs[i].b2 || k == gs[i].b1 || k == gs[i].b0);
      assert all[i] == gs[i];
    }
    if Covered(all, k) {
      var i :| 0 <= i < |all| && (k == all[i].b2 || k == all[i].b1 || k == all[i].b0);
      if i < |gs| { assert all[i] == gs[i]; }
    }
  }

  /** The groups other than the last follow a rotating pattern with a stride of a third. */
  function Stride(m: Magic): nat { if m.Sha256? then 10 else 21 }

  function Pattern(m: Magic, g: nat): Group {
    var t := Stride(m);
    if g % 3 == 0 then Group(g, g + t, g + 2 * t, 4)
    else if (g % 3 == 1) == m.Sha256? then Group(g + 2 * t, g, g + t, 4)
    else Group(g + t, g + 2 * t, g, 4)
  }

  lemma {:induction false} TableFollowsPattern256(g: nat)
    requires g < 10
    ensures Table(Sha256)[g] == Pattern(Sha256, g)
  {
    assert g == 0 || g == 1 || g == 2 || g == 3 || g == 4 || g == 5 || g == 6 || g == 7 || g == 8 || g == 9;
  }

  lemma {:induction false} TableFollowsPattern512(g: nat)
    requires g < 21
    ensures Table(Sha512)[g] == Pattern(Sha512, g)
  {
    assert g == 0 || g == 1 || g == 2 || g == 3 || g == 4 || g == 5 || g == 6 || g == 7 || g == 8 || g == 9
      || g == 10 || g == 11 || g == 12 || g == 13 || g == 14 || g == 15 || g == 16 || g == 17 || g == 18 || g == 19 || g == 20;
  }

  lemma {:induction false} TableOk(m: Magic)
    ensures GroupsOk(Table(m), Size(m))
  {
    forall g | 0 <= g < |Table(m)| ensures GroupOk(Table(m)[g], Size(m)) {
      if g < Stride(m) {
        if m.Sha256? { TableFollowsPattern256(g); } else { TableFollowsPattern512(g); }
      }
    }
  }

  /** Every byte of the digest is in the table. */
  lemma {:induction false} TableCovers(m: Magic, k: nat)
    requires k < Size(m)
    ensures Covered(Table(m), k)
  {
    var t := Stride(m);
    if k < 3 * t {
      var g := k % t;
      var part := k / t;
      assert k == part * t + g && part < 3;
      assert part == 0 || part == 1 || part == 2;
      if m.Sha256? { TableFollowsPattern256(g); } else { TableFollowsPattern512(g); }
      assert k == Table(m)[g].b2 || k == Table(m)[g].b1 || k == Table(m)[g].b0;
    } else {
      assert k == Table(m)[t].b1 || k == Table(m)[t].b0;
    }
  }

  /** The printed tail tells the whole digest. */
  lemma {:induction false} TailDecodes(m: Magic, buf: string)
    requires |buf| == Size(m) && IsBytes(buf)
    ensures GroupsOk(Table(m), |buf|) && |Encode(buf, Table(m))| == Length(Table(m))
    ensures forall k :: 0 <= k < |buf| ==>
      k in Decode(Encode(buf, Table(m)), Table(m)) && Decode(Encode(buf, Table(m)), Table(m))[k] == buf[k] as int
  {
    TableOk(m);
    EncodeLength(buf, Table(m));
    forall k | 0 <= k < |buf|
      ensures k in Decode(Encode(buf, Table(m)), Table(m)) && Decode(Encode(buf, Table(m)), Table(m))[k] == buf[k] as int
    {
      TableCovers(m, k);
      DecodesWhatIsCovered(buf, Table(m), k);
    }
  }

  lemma {:induction false} LengthSteps(m: Magic, n: nat)
    requires n <= Stride(m)
    ensures Length(Table(m)[..n]) == 4 * n
  {
    if n > 0 {
      LengthSteps(m, n - 1);
      assert Table(m)[..n][..n - 1] == Table(m)[..n - 1];
      if m.Sha256? { TableFollowsPattern256(n - 1); } else { TableFollowsPattern512(n - 1); }
    }
  }

  lemma {:induction false} TailLength(m: Magic)
    ensures Length(Table(m)) == if m.Sha256? then 43 else 86
  {
    LengthSteps(m, Stride(m));
    var t := Table(m);
    assert t[..|t| - 1] == t[..Stride(m)];
  }

  // ---- the salt argument ----

  const ROUNDS_DEFAULT: nat := 5000
  const ROUNDS_MIN: nat := 1000
  const ROUNDS_MAX: nat := 999_999_999
  const SALT_LEN_MAX: nat := 16

  datatype Salt = Salt(rounds: nat, custom: bool, text: string)

  function Clamp(n: nat): nat {
    if n > ROUNDS_MAX then ROUNDS_MAX else if n < ROUNDS_MIN then ROUNDS_MIN else n
  }

  function Cut(s: string): string { if |s| > SALT_LEN_MAX then s[..SALT_LEN_MAX] else s }

  /** An optional "rounds=<number>$" and at most 16 characters of salt; none when the number is not
      followed by '$'. */
  function ReadSalt(salt: string): Option<Salt> {
    if |salt| >= 7 && salt[..7] == "rounds=" then
      var num := salt[7..];
      var scan := Strtoul(num);
      if scan.end < |num| && num[scan.end] == '$' then Some(Salt(Clamp(scan.value), true, Cut(num[scan.end + 1..]))) else None
    else Some(Salt(ROUNDS_DEFAULT, false, Cut(salt)))
  }

  function MagicText(m: Magic): string { if m.Sha256? then "5" else "6" }

  /** Everything before the digest. */
  function Header(m: Magic, s: Salt): string {
    "$" + MagicText(m) + "$" + (if s.custom then "rounds=" + Decimal(s.rounds) + "$" else "") + s.text
  }

  function Pow10(n: nat): nat { if n == 0 then 1 else 10 * Pow10(n - 1) }

  lemma {:induction false} DecimalLength(n: nat, k: nat)
    requires k >= 1 && n < Pow10(k)
    ensures |Decimal(n)| <= k
  {
    if n >= 10 { DecimalLength(n / 10, k - 1); }
  }

  lemma {:induction false} HeaderLength(m: Magic, s: Salt)
    requires s.rounds <= ROUNDS_MAX && |s.text| <= SALT_LEN_MAX
    ensures |Header(m, s)| <= 3 + (if s.custom then 17 else 0) + |s.text|
  {
    assert Pow10(3) == 1000;
    assert Pow10(6) == 1000_000;
    assert Pow10(9) == 1000_000_000;
    DecimalLength(s.rounds, 9);
  }

  // ---- the whole function ----

  ghost predicate IsDigest(sha: string -> string, m: Magic) {
    forall x :: |sha(x)| == Size(m) && IsBytes(sha(x))
  }

  lemma {:induction false} DigestShape(sha: string -> string, m: Magic, passwd: string, salt: string, rounds: nat)
    requires IsDigest(sha, m)
    ensures |Digest(sha, passwd, salt, rounds)| == Size(m) && IsBytes(Digest(sha, passwd, salt, rounds))
  {
    var a := DigestA(sha, passwd, salt);
    RoundsShape(sha, m, rounds, a, SequenceP(sha, passwd), SequenceS(sha, salt, a));
  }

  lemma {:induction false} RoundsShape(sha: string -> string, m: Magic, n: nat, a: string, p: string, s: string)
    requires IsDigest(sha, m) && |a| == Size(m) && IsBytes(a)
    ensures |Rounds(sha, n, a, p, s)| == Size(m) && IsBytes(Rounds(sha, n, a, p, s))
  {
  }

  /** The result of shacrypt; an empty password or salt cannot be hashed, because their sequences
      would be allocated with size zero. */
  ghost function Crypt(sha: string -> string, m: Magic, passwd: string, salt: string): (r: Option<string>)
    requires IsDigest(sha, m)
  {
    var s := ReadSalt(salt);
    if s.None? || passwd == "" || s.value.text == "" then None
    else
      DigestShape(sha, m, passwd, s.value.text, s.value.rounds);
      TableOk(m);
      Some(Header(m, s.value) + "$" + Encode(Digest(sha, passwd, s.value.text, s.value.rounds), Table(m)))
  }

  lemma {:induction false} SaltParts(number: string, text: string)
    ensures var salt := "rounds=" + number + "$" + text;
      |salt| >= 7 && salt[..7] == "rounds=" && salt[7..] == number + ("$" + text)
  {
    var salt := "rounds=" + number + "$" + text;
    assert salt == "rounds=" + (number + ("$" + text));
  }

  /** A number in front of the salt: it is cut to the allowed range, and the salt to 16 characters. */
  lemma {:induction false} RoundsAreRead(n: nat, text: string)
    ensures var r := ReadSalt("rounds=" + Decimal(n) + "$" + text);
      && r.Some? && r.value.custom && |r.value.text| <= 16 && r.value.text <= text && (|text| <= 16 ==> r.value.text == text)
      && 1000 <= r.value.rounds <= 999_999_999 && (1000 <= n <= 999_999_999 ==> r.value.rounds == n)
      && (n < 1000 ==> r.value.rounds == 1000) && (n > 999_999_999 ==> r.value.rounds == 999_999_999)
  {
    SaltParts(Decimal(n), text);
    StrtoulBefore(n, "$" + text);
    ReadNumber("rounds=" + Decimal(n) + "$" + text, Decimal(n), text, if n < ULONG_RANGE then n else ULONG_RANGE - 1);
    ClampRange(n);
    CutPrefix(text);
  }

  lemma {:induction false} ReadNumber(salt: string, number: string, text: string, v: nat)
    requires |salt| >= 7 && salt[..7] == "rounds=" && salt[7..] == number + ("$" + text)
    requires Strtoul(salt[7..]) == Scan(v, |number|)
    ensures ReadSalt(salt) == Some(Salt(Clamp(v), true, Cut(text)))
  {
    var num := salt[7..];
    assert num[|number|] == '$' && num[|number| + 1..] == text;
  }

  lemma {:induction false} ClampRange(n: nat)
    ensures var c := Clamp(if n < ULONG_RANGE then n else ULONG_RANGE - 1);
      && 1000 <= c <= 999_999_999 && (1000 <= n <= 999_999_999 ==> c == n)
      && (n < 1000 ==> c == 1000) && (n > 999_999_999 ==> c == 999_999_999)
  {
  }

  lemma {:induction false} CutPrefix(text: string)
    ensures |Cut(text)| <= 16 && Cut(text) <= text && (|text| <= 16 ==> Cut(text) == text)
  {
  }

  /** strtoul on a printed number and a tail that does not continue it. */
  lemma {:induction false} StrtoulBefore(n: nat, tail: string)
    requires tail != "" && !IsDigit(tail[0])
    ensures Strtoul(Decimal(n) + tail) == Scan(if n < ULONG_RANGE then n else ULONG_RANGE - 1, |Decimal(n)|)
  {
    StrtoulReads("", "", Decimal(n), tail);
    assert "" + "" + (Decimal(n) + tail) == Decimal(n) + tail;
    DecimalRoundTrip(n);
  }

  lemma {:induction false} NoRoundsAreDefault(text: string)
    requires |text| < 7 || text[..7] != "rounds="
    ensures var r := ReadSalt(text);
      && r.Some? && !r.value.custom && r.value.rounds == 5000
      && |r.value.text| <= 16 && r.value.text <= text && (|text| <= 16 ==> r.value.text == text)
  {
    CutPrefix(text);
  }

  /** The header behind its magic is a salt argument that means the same. */
  lemma {:induction false} HeaderReadsBack(m: Magic, salt: string)
    requires ReadSalt(salt).Some?
    ensures var h := Header(m, ReadSalt(salt).value);
      |h| >= 3 && h[..3] == (if m.Sha256? then "$5$" else "$6$") && ReadSalt(h[3..]) == ReadSalt(salt)
  {
    var s := ReadSalt(salt).value;
    HeaderParts(m, s);
    SaltShape(salt);
    if s.custom {
      RoundsAreRead(s.rounds, s.text);
    } else {
      NoRoundsAreDefault(s.text);
    }
  }

  lemma {:induction false} SaltShape(salt: string)
    requires ReadSalt(salt).Some?
    ensures var s := ReadSalt(salt).value;
      && |s.text| <= 16 && 1000 <= s.rounds <= 999_999_999
      && (!s.custom ==> s.rounds == 5000 && (|s.text| < 7 || s.text[..7] != "rounds="))
  {
    var s := ReadSalt(salt).value;
    if !s.custom && |s.text| >= 7 {
      assert s.text[..7] == salt[..7];
    }
  }

  lemma {:induction false} HeaderParts(m: Magic, s: Salt)
    ensures var h := Header(m, s);
      && |h| >= 3 && h[..3] == (if m.Sha256? then "$5$" else "$6$")
      && h[3..] == if s.custom then "rounds=" + Decimal(s.rounds) + "$" + s.text else s.text
  {
    var magic := "$" + MagicText(m) + "$";
    assert |magic| == 3 && magic == if m.Sha256? then "$5$" else "$6$";
    if s.custom {
      var number := "rounds=" + Decimal(s.rounds) + "$";
      assert Header(m, s) == magic + (number + s.text);
    } else {
      assert Header(m, s) == magic + s.text;
    }
  }

  /** The hash text is the header, a dollar sign and the digest. */
  ghost predicate Hashed(m: Magic, out: string, h: string) {
    && |h| >= 3 && h[..3] == (if m.Sha256? then "$5$" else "$6$")
    && |out| == |h| + 1 + (if m.Sha256? then 43 else 86) && out[..|h|] == h && out[|h|] == '$'
  }

  /** So a printed hash tells how to make it again: its own header gives the same hash. */
  lemma {:induction false} CryptReproduces(sha: string -> string, m: Magic, passwd: string, salt: string) returns (h: string)
    requires IsDigest(sha, m) && Crypt(sha, m, passwd, salt).Some?
    ensures var out := Crypt(sha, m, passwd, salt).value;
      Hashed(m, out, h) && Crypt(sha, m, passwd, h[3..]) == Some(out)
  {
    h := Header(m, ReadSalt(salt).value);
    HeaderReadsBack(m, salt);
    CryptParts(sha, m, passwd, salt);
    CryptBySalt(sha, m, passwd, salt, h[3..]);
  }

  lemma {:induction false} CryptBySalt(sha: string -> string, m: Magic, passwd: string, salt: string, salt': string)
    requires IsDigest(sha, m) && ReadSalt(salt) == ReadSalt(salt')
    ensures Crypt(sha, m, passwd, salt) == Crypt(sha, m, passwd, salt')
  {
  }

  lemma {:induction false} TailShape(m: Magic, digest: string)
    requires |digest| == Size(m) && IsBytes(digest)
    ensures GroupsOk(Table(m), |digest|) && |Encode(digest, Table(m))| == if m.Sha256? then 43 else 86
  {
    TableOk(m);
    EncodeLength(digest, Table(m));
    TailLength(m);
  }

  lemma {:induction false} CryptParts(sha: string -> string, m: Magic, passwd: string, salt: string)
    requires IsDigest(sha, m) && Crypt(sha, m, passwd, salt).Some?
    ensures ReadSalt(salt).Some?
    ensures var out, h := Crypt(sha, m, passwd, salt).value, Header(m, ReadSalt(salt).value);
      |out| == |h| + 1 + (if m.Sha256? then 43 else 86) && out[..|h|] == h && out[|h|] == '$'
  {
    var s := ReadSalt(salt).value;
    DigestShape(sha, m, passwd, s.text, s.rounds);
    TailShape(m, Digest(sha, passwd, s.text, s.rounds));
  }

  /** The first steps written out for a password of two bytes, whose length is 10 in binary: the
      sequences, the order of what is fed, and the first two rounds. */
  lemma {:induction false} TwoBytePassword(sha: string -> string, m: Magic, w: string, salt: string)
    requires IsDigest(sha, m) && |w| == 2 && salt != "" && |salt| <= 16
    ensures var b := sha(w + salt + w);
      var a := sha(w + salt + b[..2] + (w + b));
      var p, s := sha(w + w)[..2], sha(Repeat(salt, 16 + a[0] as int))[..|salt|];
      Digest(sha, w, salt, 1) == sha(a + p) && Digest(sha, w, salt, 2) == sha(p + s + p + sha(a + p))
  {
    var b := sha(w + salt + w);
    var a := sha(w + salt + b[..2] + (w + b));
    CyclicShort(b, 2);
    TwoBits(b, w);
    TwoCopies(w);
    CyclicShort(sha(w + w), 2);
    CyclicShort(sha(Repeat(salt, 16 + a[0] as int)), |salt|);
    var p, s := sha(w + w)[..2], sha(Repeat(salt, 16 + a[0] as int))[..|salt|];
    assert DigestA(sha, w, salt) == a && SequenceP(sha, w) == p && SequenceS(sha, salt, a) == s;
    FirstRounds(sha, a, p, s);
  }

  lemma {:induction false} TwoBits(b: string, w: string)
    ensures ByBits(2, b, w) == w + b
  {
    LowestBit(2, 1, b, w);
    LowestBit(1, 0, b, w);
    Whole(b);
  }

  lemma {:induction false} TwoCopies(w: string)
    ensures Repeat(w, 2) == w + w
  {
    assert Repeat(w, 1) == Repeat(w, 0) + w == w;
  }

  lemma {:induction false} FirstRounds(sha: string -> string, a: string, p: string, s: string)
    ensures Rounds(sha, 1, a, p, s) == sha(a + p) && Rounds(sha, 2, a, p, s) == sha(p + s + p + sha(a + p))
  {
    RoundPieces(0, a, p, s);
    RoundPieces(1, sha(a + p), p, s);
    assert Rounds(sha, 1, a, p, s) == sha(RoundInput(0, Rounds(sha, 0, a, p, s), p, s));
  }

  /** The text fits the static buffer of 3 + 17 + 17 + 86 + 1 bytes, terminator included. */
  lemma {:induction false} CryptFits(sha: string -> string, m: Magic, passwd: string, salt: string)
    requires IsDigest(sha, m) && Crypt(sha, m, passwd, salt).Some?
    ensures |Crypt(sha, m, passwd, salt).value| + 1 <= 3 + 17 + 17 + 86 + 1
  {
    CryptParts(sha, m, passwd, salt);
    SaltShape(salt);
    HeaderLength(m, ReadSalt(salt).value);
  }

  /** The rounds loop. */
  method RunRounds(sha: string -> string, rounds: nat, a: string, p: string, s: string) returns (buf: string)
    ensures buf == Rounds(sha, rounds, a, p, s)
  {
    buf := a;
    for n := 0 to rounds
      invariant buf == Rounds(sha, n, a, p, s)
    {
      var md2 := if n % 2 == 1 then p else buf;
      if n % 3 != 0 { md2 := md2 + s; } else { assert md2 + "" == md2; }
      if n % 7 != 0 { md2 := md2 + p; } else { assert md2 + "" == md2; }
      md2 := md2 + if n % 2 == 1 then buf else p;
      buf := sha(md2);
    }
  }

  /** The macro calls. */
  method WriteTail(buf: string, gs: seq<Group>) returns (s: string)
    requires GroupsOk(gs, |buf|) && IsBytes(buf)
    ensures s == Encode(buf, gs)
  {
    s := "";
    for i := 0 to |gs|
      invariant s == Encode(buf, gs[..i])
    {
      assert gs[..i + 1][..i] == gs[..i];
      var piece := B64From24bit(buf, gs[i]);
      s := s + piece;
    }
    assert gs[..|gs|] == gs;
  }

  /** The first digest, of which the rounds begin. */
  method FirstDigest(sha: string -> string, passwd: string, salt: string) returns (buf: string)
    requires forall x :: |sha(x)| > 0
    ensures buf == DigestA(sha, passwd, salt)
  {
    buf := sha(passwd + salt + passwd);
    var md := FeedCyclic(passwd + salt, buf, |passwd|);
    md := FeedBits(md, buf, passwd);
    buf := sha(md);
  }

  /** The P and S sequences. */
  method Sequence(sha: string -> string, text: string, times: nat) returns (bytes: string)
    requires forall x :: |sha(x)| > 0
    ensures bytes == Cyclic(sha(Repeat(text, times)), |text|)
  {
    var md := FeedRepeat(text, times);
    var out := new char[|text|];
    FillCyclic(sha(md), out);
    bytes := out[..];
  }

  /** From the first digest to the last. */
  method ComputeDigest(sha: string -> string, m: Magic, passwd: string, salt: string, rounds: nat) returns (buf: string)
    requires IsDigest(sha, m)
    ensures buf == Digest(sha, passwd, salt, rounds)
  {
    buf := FirstDigest(sha, passwd, salt);
    var pBytes := Sequence(sha, passwd, |passwd|);
    var sBytes := Sequence(sha, salt, 16 + buf[0] as int);
    buf := RunRounds(sha, rounds, buf, pBytes, sBytes);
  }

  /** shacrypt */
  method Shacrypt(sha: string -> string, m: Magic, passwd: string, salt: string) returns (r: Option<string>)
    requires IsDigest(sha, m)
    ensures r == Crypt(sha, m, passwd, salt)
    ensures r.Some? ==> |r.value| < 124
  {
    var s := ReadSalt(salt);
    if s.None? {
      return None;
    }
    var text, rounds := s.value.text, s.value.rounds;
    var out := Header(m, s.value);
    HeaderLength(m, s.value);
    if |out| > 3 + (if s.value.custom then 17 else 0) + |text| {
      assert false;
    }
    if passwd == "" || text == "" {
      return None;
    }
    var buf := ComputeDigest(sha, m, passwd, text, rounds);
    DigestShape(sha, m, passwd, text, rounds);
    TableOk(m);
    var tail := WriteTail(buf, Table(m));
    CryptFits(sha, m, passwd, salt);
    return Some(out + "$" + tail);
  }
}
