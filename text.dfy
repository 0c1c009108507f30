/**
 * The parts of Python's `str` that the keyword matcher relies on:
 * substring membership (`kw in text`), ASCII lower-casing (`text.lower()`)
 * and suffix tests (`filename.endswith(".pdf")`).
 */
module Text {

  /** The characters of `text` from offset `i` on begin with `kw`. */
  predicate OccursAt(text: string, kw: string, i: int) {
    0 <= i <= |text| - |kw| && text[i..i + |kw|] == kw
  }

  /** `kw` appears in `text` as a contiguous run of characters, at some offset. */
  ghost predicate Contains(text: string, kw: string) {
    exists i :: OccursAt(text, kw, i)
  }

  /** A match that does not start at offset 0 is a match in the text's tail. */
  lemma ContainsShift(text: string, kw: string)
    requires text != [] && !(kw <= text)
    ensures Contains(text, kw) <==> Contains(text[1..], kw)
  {
    if Contains(text, kw) {
      var i :| OccursAt(text, kw, i);
      assert text[..|kw|] != kw;
      assert text[1..][i - 1..i - 1 + |kw|] == kw;
      assert OccursAt(text[1..], kw, i - 1);
    }
    if Contains(text[1..], kw) {
      var i :| OccursAt(text[1..], kw, i);
      assert text[i + 1..i + 1 + |kw|] == kw;
      assert OccursAt(text, kw, i + 1);
    }
  }

  /**
   * Python's `kw in text` on strings: a scan that tries every start offset
   * in turn. It answers exactly whether `kw` occurs in `text`; in particular
   * the empty string occurs in every text, and a keyword is never found
   * inside a shorter text.
   */
  function Occurs(text: string, kw: string): (r: bool)
    ensures r <==> Contains(text, kw)
    decreases |text|
  {
    if kw <= text then
      assert OccursAt(text, kw, 0);
      true
    else if text == [] then
      false
    else
      ContainsShift(text, kw);
      Occurs(text[1..], kw)
  }

  /** Containment of texts is transitive: a run inside a run of `u` is a run of `u`. */
  lemma ContainsTransitive(u: string, t: string, kw: string)
    requires Contains(u, t) && Contains(t, kw)
    ensures Contains(u, kw)
  {
    var i :| OccursAt(u, t, i);
    var j :| OccursAt(t, kw, j);
    forall k | 0 <= k < |kw| ensures u[i + j + k] == kw[k] {
      assert t[j..j + |kw|][k] == t[j + k];
      assert u[i..i + |t|][j + k] == u[i + j + k];
    }
    assert u[i + j..i + j + |kw|] == kw;
    assert OccursAt(u, kw, i + j);
  }

  /** Both parts of a concatenation occur in it. */
  lemma ContainsParts(s: string, t: string)
    ensures Contains(s + t, s) && Contains(s + t, t)
  {
    assert OccursAt(s + t, s, 0);
    assert OccursAt(s + t, t, |s|);
  }

  /** ASCII lower-casing of one character: 'A'..'Z' map to 'a'..'z', everything else is kept. */
  function LowerChar(c: char): char {
    if 'A' <= c <= 'Z' then (c as int + 32) as char else c
  }

  /** `s.lower()` restricted to ASCII letters. */
  function Lower(s: string): (r: string)
    ensures |r| == |s|
    ensures forall i :: 0 <= i < |s| ==>
              if 'A' <= s[i] <= 'Z' then r[i] as int == s[i] as int + 32 else r[i] == s[i]
  {
    seq(|s|, i requires 0 <= i < |s| => LowerChar(s[i]))
  }

  /** No character of `s` is an upper-case ASCII letter. */
  predicate IsLowercase(s: string) {
    forall i :: 0 <= i < |s| ==> !('A' <= s[i] <= 'Z')
  }

  /** Lower-casing yields lower-case text, and changes lower-case text not at all. */
  lemma LowerSpec(s: string)
    ensures IsLowercase(Lower(s))
    ensures IsLowercase(s) <==> Lower(s) == s
    ensures Lower(Lower(s)) == Lower(s)
  {
    if Lower(s) == s {
      forall i | 0 <= i < |s| ensures !('A' <= s[i] <= 'Z') {
        assert LowerChar(s[i]) == s[i];
      }
    }
  }

  /** Lower-casing commutes with taking a slice. */
  lemma LowerSlice(s: string, i: int, j: int)
    requires 0 <= i <= j <= |s|
    ensures Lower(s)[i..j] == Lower(s[i..j])
  {
  }

  /**
   * `kw` occurs in `text` when letter case is ignored: some run of `text`
   * lower-cases to `kw`.
   */
  ghost predicate ContainsIgnoringCase(text: string, kw: string) {
    exists i :: OccursAtIgnoringCase(text, kw, i)
  }

  /** The run of `text` of length `|kw|` at offset `i` lower-cases to `kw`. */
  predicate OccursAtIgnoringCase(text: string, kw: string, i: int) {
    0 <= i <= |text| - |kw| && Lower(text[i..i + |kw|]) == kw
  }

  /**
   * Searching the lower-cased text finds a lower-case keyword in whatever
   * capitalisation the text spells it, and never finds a keyword that has an
   * upper-case letter.
   */
  lemma LoweredSearch(text: string, kw: string)
    ensures IsLowercase(kw) ==> (Occurs(Lower(text), kw) <==> ContainsIgnoringCase(text, kw))
    ensures !IsLowercase(kw) ==> !Occurs(Lower(text), kw)
  {
    var lt := Lower(text);
    if Contains(lt, kw) {
      var i :| OccursAt(lt, kw, i);
      LowerSlice(text, i, i + |kw|);
      LowerSpec(text[i..i + |kw|]);
      assert OccursAtIgnoringCase(text, kw, i);
    }
    if ContainsIgnoringCase(text, kw) {
      var i :| OccursAtIgnoringCase(text, kw, i);
      LowerSlice(text, i, i + |kw|);
      assert OccursAt(lt, kw, i);
    }
  }

  /** Python's `s.endswith(suffix)`: `s` is some prefix followed by `suffix`. */
  function EndsWith(s: string, suffix: string): (r: bool)
    ensures r <==> exists p :: p + suffix == s
  {
    if |suffix| <= |s| && s[|s| - |suffix|..] == suffix then
      assert s[..|s| - |suffix|] + suffix == s;
      true
    else
      false
  }
}
