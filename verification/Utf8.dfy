/** UTF-8 lengths and cuts: Rust slices a string at byte offsets and panics inside a character. */
module Utf8 {
  import opened Common

  function Width(c: char): nat {
    if c as int < 0x80 then 1 else if c as int < 0x800 then 2 else if c as int < 0x1_0000 then 3 else 4
  }

  function ByteLength(s: string): nat {
    if s == "" then 0 else ByteLength(s[..|s|-1]) + Width(s[|s|-1])
  }

  ghost predicate Ascii(s: string) {
    forall i :: 0 <= i < |s| ==> s[i] as int < 0x80
  }

  /** `&s[..i]` for a byte offset `i`: how many characters it keeps, unless it panics. */
  function Cut(s: string, i: nat): (r: Option<nat>)
    ensures r.Some? ==> r.value <= |s| && ByteLength(s[..r.value]) == i
  {
    if ByteLength(s) == i then
      assert s[..|s|] == s;
      Some(|s|)
    else if ByteLength(s) < i || s == "" then None
    else
      var r := Cut(s[..|s|-1], i);
      assert r.Some? ==> s[..|s|-1][..r.value] == s[..r.value];
      r
  }

  lemma {:induction false} LongerPrefix(s: string, k: nat)
    requires k <= |s|
    ensures ByteLength(s[..k]) <= ByteLength(s) && (k < |s| ==> ByteLength(s[..k]) < ByteLength(s))
    decreases |s|
  {
    if k < |s| {
      LongerPrefix(s[..|s|-1], k);
      assert s[..|s|-1][..k] == s[..k];
    } else {
      assert s[..k] == s;
    }
  }

  /** A cut at the end of the first `k` characters finds them. */
  lemma {:induction false} CutAtPrefix(s: string, k: nat)
    requires k <= |s|
    ensures Cut(s, ByteLength(s[..k])) == Some(k)
    decreases |s|
  {
    LongerPrefix(s, k);
    if k < |s| {
      CutAtPrefix(s[..|s|-1], k);
      assert s[..|s|-1][..k] == s[..k];
    } else {
      assert s[..k] == s;
    }
  }

  /** No offset in the string panics. */
  ghost predicate AllCuts(s: string) {
    forall i: nat :: i <= ByteLength(s) ==> Cut(s, i).Some?
  }

  lemma {:induction false} AsciiCuts(s: string)
    requires Ascii(s)
    ensures AllCuts(s)
  {
    if s != "" {
      var init := s[..|s|-1];
      AsciiCuts(init);
      forall i: nat | i <= ByteLength(s) ensures Cut(s, i).Some? {
        assert i == ByteLength(s) || i <= ByteLength(init);
      }
    }
  }

  lemma {:induction false} WideCharacterPanics(s: string) returns (i: nat)
    requires !Ascii(s)
    ensures i <= ByteLength(s) && Cut(s, i).None?
  {
    var init, c := s[..|s|-1], s[|s|-1];
    if c as int >= 0x80 {
      i := ByteLength(init) + 1;
    } else {
      i := WideCharacterPanics(init);
    }
  }

  /** Cutting at every byte offset succeeds exactly for ASCII strings. */
  lemma AllCutsIff(s: string)
    ensures AllCuts(s) <==> Ascii(s)
  {
    if Ascii(s) {
      AsciiCuts(s);
    } else {
      var i := WideCharacterPanics(s);
    }
  }
}
