/** Python string primitives shared by the text-handling components. */
module Strings {

  /** What `str.isspace`, `str.strip` and the regular expression `\s` call white space. */
  predicate IsSpace(c: char) {
    var n := c as int;
    9 <= n <= 13 || 28 <= n <= 32 || n == 0x85 || n == 0xA0 || n == 0x1680 || 0x2000 <= n <= 0x200A
    || n == 0x2028 || n == 0x2029 || n == 0x202F || n == 0x205F || n == 0x3000
  }

  /** The white space of Unicode, and the four separators that Python adds. */
  lemma WhiteSpaceIs(c: char)
    ensures IsSpace(c) <==>
            c as int in [0x09, 0x0A, 0x0B, 0x0C, 0x0D, 0x1C, 0x1D, 0x1E, 0x1F, 0x20, 0x85, 0xA0, 0x1680,
                         0x2000, 0x2001, 0x2002, 0x2003, 0x2004, 0x2005, 0x2006, 0x2007, 0x2008, 0x2009, 0x200A,
                         0x2028, 0x2029, 0x202F, 0x205F, 0x3000]
  {
  }

  /** `not s.strip()` */
  predicate Blank(s: string) {
    forall i :: 0 <= i < |s| ==> IsSpace(s[i])
  }

  predicate IsAlnum(c: char) { '0' <= c <= '9' || 'A' <= c <= 'Z' || 'a' <= c <= 'z' }

  /** A run of consecutive characters, spelled out. */
  predicate Runs(t: string, first: char) {
    forall i :: 0 <= i < |t| ==> t[i] as int == first as int + i
  }

  lemma RunIs(t: string, first: char, c: char)
    requires Runs(t, first)
    ensures c in t <==> first <= c && c as int < first as int + |t|
  {
    if first <= c && c as int < first as int + |t| {
      assert t[c as int - first as int] == c;
    }
  }

  lemma AlnumIs(c: char)
    ensures IsAlnum(c) <==>
            c in "0123456789" || c in "ABCDEFGHIJKLMNOPQRSTUVWXYZ" || c in "abcdefghijklmnopqrstuvwxyz"
  {
    hide Runs;
    AlphabetRuns();
    RunIs("0123456789", '0', c);
    RunIs("ABCDEFGHIJKLMNOPQRSTUVWXYZ", 'A', c);
    RunIs("abcdefghijklmnopqrstuvwxyz", 'a', c);
  }

  lemma AlphabetRuns()
    ensures Runs("0123456789", '0')
    ensures Runs("ABCDEFGHIJKLMNOPQRSTUVWXYZ", 'A')
    ensures Runs("abcdefghijklmnopqrstuvwxyz", 'a')
  {
  }

  /** `t in s` */
  predicate Contains(s: string, t: string) {
    exists i :: 0 <= i <= |s| && t <= s[i..]
  }
}
