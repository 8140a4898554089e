/** Text primitives the sniffers are built from: reading a bounded prefix of a
    file's contents, and Python's substring test `needle in hay`. */
module Text {

  function Min(a: nat, b: nat): (m: nat)
    ensures m <= a && m <= b && (m == a || m == b)
  {
    if a <= b then a else b
  }

  /** `open(filename).read(n)` in text mode, applied to the file's decoded,
      newline-translated text: at most `n` characters from its start; a
      shorter text yields all of it. */
  function Read(contents: string, n: nat): (r: string)
    ensures |r| == Min(n, |contents|)
    ensures r <= contents
    ensures |contents| <= n ==> r == contents
  {
    contents[..Min(n, |contents|)]
  }

  /** `needle` starts at index `i` of `hay`. */
  ghost predicate OccursAt(hay: string, needle: string, i: int) {
    0 <= i && i + |needle| <= |hay| && hay[i..i + |needle|] == needle
  }

  /** Python's `needle in hay`: `needle` is a prefix of some suffix of `hay`. */
  predicate Contains(hay: string, needle: string)
    decreases |hay|
  {
    needle <= hay || (|hay| > 0 && Contains(hay[1..], needle))
  }

  /** The search and the occurrence-based view of `in` agree, in both directions. */
  lemma {:induction false} ContainsIffOccurs(hay: string, needle: string)
    ensures Contains(hay, needle) <==> exists i :: OccursAt(hay, needle, i)
    decreases |hay|
  {
    if needle <= hay {
      assert OccursAt(hay, needle, 0);
    } else if |hay| == 0 {
      assert forall i :: !OccursAt(hay, needle, i);
    } else {
      ContainsIffOccurs(hay[1..], needle);
      forall i | OccursAt(hay[1..], needle, i) ensures OccursAt(hay, needle, i + 1) {
        assert hay[1..][i..i + |needle|] == hay[i + 1..i + 1 + |needle|];
      }
      assert !OccursAt(hay, needle, 0);
      forall i | OccursAt(hay, needle, i) && i > 0 ensures OccursAt(hay[1..], needle, i - 1) {
        assert hay[1..][i - 1..i - 1 + |needle|] == hay[i..i + |needle|];
      }
    }
  }

  /** `needle in Read(s, n)` holds exactly when `needle` occurs in `s` at a
      start index that leaves it wholly inside the first `n` characters. */
  lemma ContainsInPrefix(s: string, n: nat, needle: string)
    ensures Contains(Read(s, n), needle) <==>
            exists i :: i + |needle| <= n && OccursAt(s, needle, i)
  {
    var h := Read(s, n);
    ContainsIffOccurs(h, needle);
    forall i | OccursAt(h, needle, i) ensures i + |needle| <= n && OccursAt(s, needle, i) {
      assert h[i..i + |needle|] == s[i..i + |needle|];
    }
    forall i | i + |needle| <= n && OccursAt(s, needle, i) ensures OccursAt(h, needle, i) {
      assert h[i..i + |needle|] == s[i..i + |needle|];
    }
  }

  /** Once `s` holds at least `n` characters, text appended after it is never read. */
  lemma ReadIgnoresSuffix(s: string, t: string, n: nat)
    requires n <= |s|
    ensures Read(s + t, n) == Read(s, n)
  {
  }
}
