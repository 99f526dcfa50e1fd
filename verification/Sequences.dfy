/**
 Facts about sequences and integers that several proofs need by name.
 */
module Sequences {
  // A word of a page range
  lemma PageOfOffset(lo: nat, hi: nat, o: nat)
    requires lo <= hi && o < 1024 * (hi - lo)
    ensures (1024 * lo + o) / 1024 == lo + o / 1024 < hi && (1024 * lo + o) % 1024 == o % 1024
    ensures 1024 * lo + o < 1024 * hi
  {
  }

  lemma Associative<T>(a: seq<T>, b: seq<T>, c: seq<T>)
    ensures (a + b) + c == a + (b + c)
  {
  }

  lemma MoveHead<T>(done: seq<T>, rest: seq<T>)
    requires rest != []
    ensures done + rest == (done + [rest[0]]) + rest[1..]
  {
  }

  lemma MoveHeadAt<T>(done: seq<T>, all: seq<T>, i: nat)
    requires i < |all|
    ensures done + all[i..] == (done + [all[i]]) + all[i + 1..]
  {
  }

  lemma SliceOfSlice<T>(s: seq<T>, from: nat, n: nat, off: nat, k: nat)
    requires from + n <= |s| && off + k <= n
    ensures s[from + off..from + off + k] == s[from..from + n][off..off + k]
  {
    var t, u := s[from..from + n], s[from + off..from + off + k];
    assert |t[off..off + k]| == |u|;
    assert forall i | 0 <= i < k :: t[off..off + k][i] == u[i];
  }

  lemma PartOfSlice<T>(m: seq<T>, at: nat, data: seq<T>, off: nat, k: nat)
    requires at + |data| <= |m| && m[at..at + |data|] == data && off + k <= |data|
    ensures m[at + off..at + off + k] == data[off..off + k]
  {
    SliceOfSlice(m, at, |data|, off, k);
  }

  // A page of the range lies apart from a page stored outside the range
  lemma PageApart(start: nat, words: nat, at: nat, lo: nat, hi: nat, page: nat)
    requires start <= at && at + 1024 <= start + words && lo <= page < hi
    requires start + words <= 1024 * lo || 1024 * hi <= start
    ensures 1024 * page + 1024 <= at || at + 1024 <= 1024 * page
  {
  }

  lemma PageInWords(bytes: nat, page: nat)
    requires bytes == 4096 * page
    ensures bytes / 4 == 1024 * page && bytes % 4 == 0
  {
  }

  lemma WordOfPage(p: nat)
    ensures p == 32 * (p / 32) + p % 32 && p % 32 < 32
  {
  }

  lemma PageOf(lo: nat, hi: nat, o: nat, i: nat, len: nat) returns (page: nat)
    requires lo <= hi && i == 1024 * lo + o && o < 1024 * (hi - lo) && 1024 * hi <= len
    ensures page == lo + o / 1024 == i / 1024 && lo <= page < hi && i < len && i % 1024 == o % 1024
  {
    page := lo + o / 1024;
  }

  lemma InHeader(n: nat, length: nat)
    requires n == 1024 + length && length >= 128
    ensures n / 4 == 256 + length / 4 > 256
  {
  }

  // The 256 pages of the 1MB from word offset 33292288 on
  lemma RecoveryArea(i: nat)
    ensures 32512 <= i / 1024 < 32768 <==> 33292288 <= i < 33554432
  {
  }

  lemma FourFours(n: nat, words: nat)
    requires n == 4 * words && n % 16 == 0
    ensures words % 4 == 0
  {
  }

  lemma CpldPayload(n: nat, length: nat, image: nat)
    requires n == 1024 + length && length == 128 + 4 * image
    ensures n / 4 == 288 + image && n == 4 * (288 + image) && n % 16 == 4 * image % 16
  {
  }

  // A 16KB page lies between the pages of two addresses exactly when its last byte lies between them
  lemma LastByteOfPage(start: nat, end: nat, p: nat)
    ensures start / 16384 <= p < end / 16384 <==> start <= 16384 * p + 16383 < end
  {
  }

  lemma PagesInOrder(start: nat, end: nat, total: nat, words: nat)
    requires start <= end && total <= 524288 * words
    ensures start / 16384 <= end / 16384 && (end <= total ==> end / 16384 / 32 <= words)
  {
  }

  lemma WordsOfFlash(total: nat)
    ensures total / 16384 / 32 == total / 524288
  {
  }

  lemma RecoveryPages(p: nat)
    ensures 32 * 254 <= p < 32 * 254 + 64 <==> 0x7F0_0000 <= 16384 * p < 0x800_0000
  {
  }

  lemma AlignedArea(staging: nat, area: nat, byte: nat)
    requires staging % 524288 == 0 && area == staging + 0x300_0000 && area <= byte < area + 0x10_0000
    ensures 32 * (area / 524288) <= byte / 16384 < 32 * (area / 524288) + 64
  {
  }

  lemma LastByteOutside(staging: nat, area: nat)
    requires staging % 524288 != 0 && area == staging + 0x300_0000
    ensures (area + 0xF_FFFF) / 16384 >= 32 * (area / 524288) + 64
  {
  }

  lemma InWords(n: nat, k: nat)
    requires n % 128 == 0 && k == n / 4
    ensures n == 4 * k && n % 16 == 0
  {
  }

  lemma PrefixOfSum<T>(a: seq<T>, b: seq<T>, j: nat)
    requires j <= |b|
    ensures |a + b| == |a| + |b| && (a + b)[..|a| + j] == a + b[..j]
  {
  }

  lemma SplitAt<T>(s: seq<T>, k: nat)
    requires k <= |s|
    ensures s == s[..k] + s[k..]
  {
  }

  lemma SamePart<T>(s: seq<T>, t: seq<T>, k: nat, lo: nat, hi: nat)
    requires lo <= hi <= k <= |s| && k <= |t| && s[..k] == t[..k]
    ensures s[lo..hi] == t[lo..hi]
  {
    assert s[..k][lo..hi] == s[lo..hi] && t[..k][lo..hi] == t[lo..hi];
  }

  // A sequence without repeats whose elements all occur in another is no longer than it
  lemma {:induction false} Pigeonhole<T>(a: seq<T>, b: seq<T>)
    requires forall i, j | 0 <= i < j < |a| :: a[i] != a[j]
    requires forall x | x in a :: x in b
    ensures |a| <= |b|
  {
    if a != [] {
      assert a[0] in b;
      var k :| 0 <= k < |b| && b[k] == a[0];
      var fewer := b[..k] + b[k + 1..];
      forall x | x in a[1..] ensures x in fewer {
        assert x in a;
        var i :| 0 <= i < |b| && b[i] == x;
        assert i != k;
        assert fewer[if i < k then i else i - 1] == x;
      }
      Pigeonhole(a[1..], fewer);
    }
  }

  // The word that holds a bit
  lemma BitInWords(bit: nat, words: nat)
    requires bit < 32 * words
    ensures bit / 8 / 4 < words && bit / 8 % 4 < 4
  {
  }

  // The words before a position do not depend on what follows it
  lemma SameHead<T>(c: seq<T>, n: nat, tail: seq<T>)
    requires n <= |c|
    ensures |c[..n] + tail| >= n && forall i: nat | i < n :: (c[..n] + tail)[i] == c[i]
  {
  }
}
