/** The ustar interchange format (IEEE Std 1003.1, pax utility): writing an archive, and the offsets a
    reader finds the members at. */
module Ustar {
  import opened Bytes
  import opened Names

  const BLOCK := 512

  const DIRTYPE: byte := 0x35

  /** One member: name, type flag and data, with the bytes of the other header fields as they come. */
  datatype Member = Member(name: Str, kind: byte, data: Str, modeToGid: Str, mtimeToSum: Str, rest: Str) {
    predicate Ok() {
      && 0 < |name| < 100 && NoNul(name)
      && |modeToGid| == 24 && |mtimeToSum| == 20 && |rest| == 355
      && |data| < TWO32
    }

    /** Extended headers and long names, which the reader skips with their data. */
    predicate IsMeta() { kind == 0x78 || kind == 0x67 || kind == 0x4B || kind == 0x4C }
  }

  function Zeros(n: nat): (z: Str)
    ensures |z| == n && forall i :: 0 <= i < n ==> z[i] == 0
  {
    if n == 0 then [] else [0] + Zeros(n - 1)
  }

  /** `w` octal digits, most significant first. */
  function Octal(n: nat, w: nat): (d: Str)
    ensures |d| == w && forall i :: 0 <= i < w ==> 0x30 <= d[i] <= 0x37
  {
    if w == 0 then [] else Octal(n / 8, w - 1) + [0x30 + n % 8]
  }

  /** How many blocks `size` bytes take. */
  function Blocks(size: nat): nat { size / 512 + if size % 512 != 0 then 1 else 0 }

  function Header(m: Member): (h: Str)
    requires m.Ok()
    ensures |h| == BLOCK
  {
    m.name + Zeros(100 - |m.name|) + m.modeToGid + (Octal(|m.data|, 11) + [0]) + m.mtimeToSum + [m.kind] + m.rest
  }

  function Written(m: Member): (s: Str)
    requires m.Ok()
    ensures |s| == BLOCK + Blocks(|m.data|) * 512
  {
    Header(m) + m.data + Zeros(Blocks(|m.data|) * 512 - |m.data|)
  }

  ghost predicate AllOk(ms: seq<Member>) { forall m :: m in ms ==> m.Ok() }

  lemma AllOkAt(ms: seq<Member>)
    requires AllOk(ms)
    ensures forall i :: 0 <= i < |ms| ==> ms[i].Ok()
  {
  }

  function Archive(ms: seq<Member>): Str
    requires AllOk(ms)
  {
    if ms == [] then [] else Archive(ms[..|ms| - 1]) + Written(ms[|ms| - 1])
  }

  /** Where member `k` starts. */
  function Start(ms: seq<Member>, k: nat): nat
    requires AllOk(ms) && k <= |ms|
  {
    |Archive(ms[..k])|
  }

  lemma {:induction false} ArchiveStarts(ms: seq<Member>, k: nat)
    requires AllOk(ms) && k <= |ms|
    ensures Start(ms, k) <= |Archive(ms)| && Archive(ms)[..Start(ms, k)] == Archive(ms[..k])
  {
    hide Written, Member.Ok;
    var n := |ms| - 1;
    if k == |ms| {
      assert ms[..k] == ms;
    } else {
      var front := ms[..n];
      ArchiveStarts(front, k);
      assert front[..k] == ms[..k];
      assert Archive(ms)[..Start(ms, k)] == Archive(front)[..Start(ms, k)];
    }
  }

  /** Member `k` is written at its start, and member `k + 1` starts behind it. */
  lemma ArchiveParts(ms: seq<Member>, k: nat)
    requires AllOk(ms) && k < |ms|
    ensures Start(ms, k) + |Written(ms[k])| <= |Archive(ms)|
    ensures Archive(ms)[Start(ms, k)..Start(ms, k) + |Written(ms[k])|] == Written(ms[k])
    ensures Start(ms, k + 1) == Start(ms, k) + |Written(ms[k])|
  {
    hide Written, Archive, AllOk;
    PrefixOk(ms, k);
    ArchiveStarts(ms, k + 1);
    ArchiveOneMore(ms, k);
    TailOfPrefix(Archive(ms), Archive(ms[..k]), Written(ms[k]));
  }

  lemma PrefixOk(ms: seq<Member>, k: nat)
    requires AllOk(ms) && k < |ms|
    ensures AllOk(ms[..k]) && AllOk(ms[..k + 1]) && ms[k].Ok()
  {
  }

  lemma TailOfPrefix(s: Str, a: Str, w: Str)
    requires |a| + |w| <= |s| && s[..|a| + |w|] == a + w
    ensures s[|a|..|a| + |w|] == w
  {
    assert s[|a|..|a| + |w|] == s[..|a| + |w|][|a|..];
  }

  lemma ArchiveOneMore(ms: seq<Member>, k: nat)
    requires AllOk(ms) && k < |ms|
    ensures Archive(ms[..k + 1]) == Archive(ms[..k]) + Written(ms[k])
    ensures Start(ms, k) == |Archive(ms[..k])| && Start(ms, k + 1) == |Archive(ms[..k + 1])|
  {
    hide Written, Member.Ok;
    assert ms[..k + 1][..k] == ms[..k];
  }

  /** The header fields the reader looks at, and the data behind the header. */
  lemma HeaderFields(m: Member)
    requires m.Ok()
    ensures var h := Header(m);
      && h[..|m.name|] == m.name && h[|m.name|] == 0
      && h[124..135] == Octal(|m.data|, 11) && h[156] == m.kind
  {
    var front := m.name + Zeros(100 - |m.name|);
    var size := Octal(|m.data|, 11) + [0];
    var h := front + m.modeToGid + size + m.mtimeToSum + [m.kind] + m.rest;
    assert h == Header(m);
    assert h[..100] == front;
    assert h[124..136] == size && h[124..135] == size[..11];
  }

  lemma WrittenFields(m: Member)
    requires m.Ok()
    ensures var w := Written(m);
      && w[..|m.name|] == m.name && w[|m.name|] == 0
      && w[124..135] == Octal(|m.data|, 11) && w[156] == m.kind
      && w[BLOCK..BLOCK + |m.data|] == m.data
  {
    HeaderFields(m);
    var w, h := Written(m), Header(m);
    assert w[..BLOCK] == h;
    assert w[..|m.name|] == h[..|m.name|] && w[124..135] == h[124..135];
  }

  // ----- octal numbers

  predicate Blank(c: byte) { c == 0x20 || c == 0 }

  predicate Digit(c: byte) { 0x30 <= c <= 0x37 }

  /** The number after leading blanks, up to the first other character. */
  function OctalValue(s: Str): nat {
    if s != [] && Blank(s[0]) then OctalValue(s[1..]) else Digits(s, 0)
  }

  function Digits(s: Str, n: nat): nat
    decreases |s|
  {
    if s != [] && Digit(s[0]) then Digits(s[1..], n * 8 + (s[0] - 0x30)) else n
  }

  /** `oct2bin` */
  method Oct2Bin(str: Str) returns (n: nat)
    ensures n == OctalValue(str)
  {
    n := 0;
    var c := 0;
    while c < |str| && (str[c] == 0x20 || str[c] == 0)
      invariant c <= |str| && OctalValue(str) == OctalValue(str[c..])
    {
      assert str[c..][1..] == str[c + 1..];
      c := c + 1;
    }
    while c < |str| && str[c] >= 0x30 && str[c] <= 0x37
      invariant c <= |str| && OctalValue(str) == Digits(str[c..], n)
    {
      assert str[c..][1..] == str[c + 1..];
      n := n * 8 + (str[c] - 0x30);
      c := c + 1;
    }
  }

  function Pow8(w: nat): (p: nat)
    ensures p > 0
  {
    if w == 0 then 1 else 8 * Pow8(w - 1)
  }

  /** Character `i` of a written number is its octal digit `w - 1 - i`. */
  lemma {:induction false} OctalDigit(n: nat, w: nat, i: nat)
    requires i < w
    ensures Octal(n, w)[i] == 0x30 + n / Pow8(w - 1 - i) % 8
  {
    if i < w - 1 {
      OctalDigit(n / 8, w - 1, i);
      DivTwice(n, 8, Pow8(w - 2 - i));
    }
  }

  /** A number is read behind leading spaces and zeros bytes, up to the first character that is no octal digit. */
  lemma {:induction false} OctalReads(blanks: Str, digits: Str, rest: Str)
    requires (forall i :: 0 <= i < |blanks| ==> blanks[i] == 0x20 || blanks[i] == 0)
    requires (forall i :: 0 <= i < |digits| ==> 0x30 <= digits[i] <= 0x37)
    requires rest != [] ==> !(0x30 <= rest[0] <= 0x37) && (digits == [] ==> rest[0] != 0x20 && rest[0] != 0)
    ensures OctalValue(blanks + (digits + rest)) == Digits(digits, 0)
  {
    var s := blanks + (digits + rest);
    if blanks != [] {
      assert s[1..] == blanks[1..] + (digits + rest);
      OctalReads(blanks[1..], digits, rest);
    } else {
      assert s == digits + rest;
      DigitsStop(digits, rest, 0);
      assert digits != [] ==> s[0] == digits[0];
      assert digits == [] ==> s == rest;
    }
  }

  lemma {:induction false} DigitsStop(digits: Str, rest: Str, n: nat)
    requires (forall i :: 0 <= i < |digits| ==> 0x30 <= digits[i] <= 0x37) && (rest != [] ==> !(0x30 <= rest[0] <= 0x37))
    ensures Digits(digits + rest, n) == Digits(digits, n)
    decreases |digits|
  {
    if digits == [] {
      assert digits + rest == rest;
    } else {
      assert (digits + rest)[1..] == digits[1..] + rest;
      DigitsStop(digits[1..], rest, n * 8 + (digits[0] - 0x30));
    }
  }

  /** Data is padded to the next multiple of 512. */
  lemma BlocksLeast(size: nat)
    ensures size <= Blocks(size) * 512 < size + 512
  {
  }

  lemma {:induction false} DigitsAppend(s: Str, d: byte, n: nat)
    requires (forall i :: 0 <= i < |s| ==> Digit(s[i])) && Digit(d)
    ensures Digits(s + [d], n) == Digits(s, n) * 8 + (d - 0x30)
    decreases |s|
  {
    if s == [] {
      assert Digits([d][1..], n * 8 + (d - 0x30)) == n * 8 + (d - 0x30);
    } else {
      assert (s + [d])[1..] == s[1..] + [d];
      DigitsAppend(s[1..], d, n * 8 + (s[0] - 0x30));
    }
  }

  /** Reading the digits undoes writing them. */
  lemma {:induction false} DigitsOfOctal(n: nat, w: nat)
    requires n < Pow8(w)
    ensures Digits(Octal(n, w), 0) == n
  {
    if w > 0 {
      DigitsOfOctal(n / 8, w - 1);
      DigitsAppend(Octal(n / 8, w - 1), 0x30 + n % 8, 0);
    }
  }

  /** Every file size the format can hold reads back. */
  lemma SizeReadsBack(n: nat)
    requires n < TWO32
    ensures OctalValue(Octal(n, 11)) == n
  {
    assert Pow8(4) == 4096;
    assert Pow8(8) == 8 * (8 * (8 * (8 * Pow8(4))));
    assert Pow8(11) == 8 * (8 * (8 * Pow8(8)));
    DigitsOfOctal(n, 11);
  }
}
