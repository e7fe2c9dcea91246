/** Flash pages: rounding to pages, and reading an object page by page. */
module Pages {
  import opened ObjFormat

  function Align(n: nat, a: nat): (m: nat)
    requires a > 0
    ensures n <= m < n + a && m % a == 0
  {
    var q := n / a;
    MultipleMod(q, a);
    MultipleMod(q + 1, a);
    if n == q * a then n else (q + 1) * a
  }

  lemma MultipleMod(q: nat, a: nat)
    requires a > 0
    ensures (q * a) % a == 0
  {
    var x := q * a;
    var d := q - x / a;
    assert d * a == x % a;
    assert d == 0 by {
      if d != 0 {
        MultipleSize(d, a);
        assert false;
      }
    }
  }

  lemma MultipleSize(d: int, a: nat)
    requires d != 0 && a > 0
    ensures d * a >= a || d * a <= -(a as int)
  {
  }

  lemma EightTimes(k: nat, j: nat, size: nat, minIo: nat)
    requires size == k * minIo && minIo == 8 * j
    ensures size % 8 == 0
  {
    assert k * (8 * j) == 8 * (k * j);
  }

  lemma PageMultiple(size: nat, minIo: nat)
    requires minIo > 0 && minIo % 8 == 0 && size % minIo == 0
    ensures size % 8 == 0
  {
    var k, j := size / minIo, minIo / 8;
    assert size == k * minIo;
    EightTimes(k, j, size, minIo);
  }

  lemma DifferenceMod(a: nat, b: nat)
    requires a % OBJ_PADDING == 0 && b % OBJ_PADDING == 0
    ensures (a - b) % OBJ_PADDING == 0
  {
  }

  lemma PadAmount(used: nat, minIo: nat)
    requires minIo > 0 && minIo % OBJ_PADDING == 0 && used % OBJ_PADDING == 0
    ensures Align(used, minIo) % OBJ_PADDING == 0 && (Align(used, minIo) - used) % OBJ_PADDING == 0
  {
    hide Align;
    var a := Align(used, minIo);
    PageMultiple(a, minIo);
    DifferenceMod(a, used);
  }

  lemma Eights(a: nat, b: nat, c: nat)
    requires a % 8 == 0 && b % 8 == 0 && c % 8 == 0
    ensures (a - b - c) % 8 == 0
  {
  }

  lemma Quotient(n: nat, a: nat)
    requires a > 0
    ensures n == (n / a) * a + n % a
  {
  }

  /** Multiples of `a` that differ by less than `a` are in the order of their factors. */
  lemma Multiples(p: nat, q: nat, a: nat)
    requires a > 0
    ensures p * a < q * a + a ==> p <= q && q * a - p * a >= 0 && (q * a - p * a) % a == 0
  {
    if p > q {
      assert p * a == q * a + (p - q) * a;
      MultipleSize(p - q, a);
    } else {
      assert q * a - p * a == (q - p) * a;
      MultipleMod(q - p, a);
    }
  }

  predicate Paged(n: nat, a: nat) {
    a > 0 && n % a == 0
  }

  function PageOffs(offs: nat, minIo: nat): (at: nat)
    requires minIo > 0
    ensures at <= offs
  {
    Quotient(offs, minIo);
    offs % minIo
  }

  lemma PageAligned(offs: nat, len: nat, minIo: nat, size: nat)
    requires Paged(size, minIo) && offs + len <= size
    ensures Align(offs + len, minIo) <= size && Paged(Align(offs + len, minIo) - (offs - PageOffs(offs, minIo)), minIo)
    ensures offs + len <= Align(offs + len, minIo)
  {
    hide Align;
    var e := Align(offs + len, minIo);
    Quotient(offs, minIo);
    Quotient(e, minIo);
    Quotient(size, minIo);
    var q, qe, qs := offs / minIo, e / minIo, size / minIo;
    Multiples(qe, qs, minIo);
    Multiples(q, qe, minIo);
    assert e - (offs - offs % minIo) == qe * minIo - q * minIo;
  }

  lemma LessPages(n: nat, m: nat, a: nat)
    requires Paged(n, a) && Paged(m, a) && n >= m
    ensures Paged(n - m, a)
  {
    Quotient(n, a);
    Quotient(m, a);
    Multiples(m / a, n / a, a);
  }

  lemma OnePage(a: nat)
    requires a > 0
    ensures Paged(a, a)
  {
  }

  lemma NoPage(n: nat, a: nat)
    requires n < a && Paged(n, a)
    ensures n == 0
  {
  }

  lemma JoinSlices(s: seq<byte>, i: nat, j: nat, k: nat)
    requires i <= j <= k <= |s|
    ensures s[i..j] + s[j..k] == s[i..k]
  {
  }

  lemma SubSlice(s: seq<byte>, i: nat, j: nat, at: nat, len: nat)
    requires i <= j <= |s| && i + at + len <= j
    ensures s[i..j][at..at + len] == s[i + at..i + at + len]
  {
    assert s[i..j] == s[i..i + at] + s[i + at..i + at + len] + s[i + at + len..j];
  }

  /** Reads the pages that hold bytes `offs..offs + len` of an erase-block, in large and then in small units. */
  method ReadPages(leb: seq<byte>, minIo: nat, maxIo: nat, offs: nat, len: nat) returns (rbuf: seq<byte>, at: nat)
    requires minIo > 0 && maxIo > 0 && Paged(maxIo, minIo) && Paged(|leb|, minIo) && offs + len <= |leb|
    ensures at + len <= |rbuf| && rbuf[at..at + len] == leb[offs..offs + len]
  {
    hide Align, Paged, PageOffs;
    at := PageOffs(offs, minIo);
    var start := offs - at;
    var end := Align(offs + len, minIo);
    PageAligned(offs, len, minIo, |leb|);
    OnePage(minIo);
    var n := 0;
    rbuf := [];
    var toread := end - start;
    while toread > maxIo
      invariant 0 <= toread && n == |rbuf| && start + n + toread == end && rbuf == leb[start..start + n]
      invariant Paged(toread, minIo)
    {
      LessPages(toread, maxIo, minIo);
      JoinSlices(leb, start, start + n, start + n + maxIo);
      rbuf := rbuf + leb[start + n..start + n + maxIo];
      n, toread := n + maxIo, toread - maxIo;
    }
    while toread >= minIo
      invariant 0 <= toread && n == |rbuf| && start + n + toread == end && rbuf == leb[start..start + n]
      invariant Paged(toread, minIo)
    {
      LessPages(toread, minIo, minIo);
      JoinSlices(leb, start, start + n, start + n + minIo);
      rbuf := rbuf + leb[start + n..start + n + minIo];
      n, toread := n + minIo, toread - minIo;
    }
    NoPage(toread, minIo);
    SubSlice(leb, start, end, at, len);
  }

  lemma MorePages(n: nat, k: nat, a: nat)
    requires a > 0 && n % a == 0
    ensures (n + k * a) % a == 0
  {
    Quotient(n, a);
    assert n + k * a == (n / a + k) * a;
    MultipleMod(n / a + k, a);
  }

  /** Two different multiples are a page apart. */
  lemma PageApart(p: nat, q: nat, a: nat)
    requires a > 0 && p % a == 0 && q % a == 0 && p < q
    ensures p + a <= q
  {
    Quotient(p, a);
    Quotient(q, a);
    var i, j := p / a, q / a;
    assert q - p == (j - i) * a;
    if j - i != 0 {
      MultipleSize(j - i, a);
    }
  }
}
