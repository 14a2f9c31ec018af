/** White space at the ends of a text whose chars stand for the bytes of its UTF-8 form. */
module Spaces {

  /** The white space characters beyond ASCII. */
  const WIDE_SPACES: seq<string> := [
    "\U{C2}\U{85}", "\U{C2}\U{A0}", "\U{E1}\U{9A}\U{80}",
    "\U{E2}\U{80}\U{80}", "\U{E2}\U{80}\U{81}", "\U{E2}\U{80}\U{82}", "\U{E2}\U{80}\U{83}",
    "\U{E2}\U{80}\U{84}", "\U{E2}\U{80}\U{85}", "\U{E2}\U{80}\U{86}", "\U{E2}\U{80}\U{87}",
    "\U{E2}\U{80}\U{88}", "\U{E2}\U{80}\U{89}", "\U{E2}\U{80}\U{8A}", "\U{E2}\U{80}\U{A8}",
    "\U{E2}\U{80}\U{A9}", "\U{E2}\U{80}\U{AF}", "\U{E2}\U{81}\U{9F}", "\U{E3}\U{80}\U{80}"]

  predicate AsciiSpace(c: char) {
    '\t' <= c <= '\r' || c == ' '
  }

  predicate EndsIn(s: string, suffix: string) {
    |suffix| <= |s| && s[|s| - |suffix|..] == suffix
  }

  /** Trimming would shorten the text at its end. */
  predicate EndsInSpace(s: string) {
    s != "" && (AsciiSpace(s[|s| - 1]) || exists w | w in WIDE_SPACES :: EndsIn(s, w))
  }

  /** Trimming would shorten the text at its start. */
  predicate StartsInSpace(s: string) {
    s != "" && (AsciiSpace(s[0]) || exists w | w in WIDE_SPACES :: w <= s)
  }

  predicate Printable(s: string) {
    s != "" && forall c | c in s :: '!' <= c <= '~'
  }

  lemma SharedEnds(s: string, w: string)
    requires w != ""
    ensures EndsIn(s, w) ==> s != "" && s[|s| - 1] == w[|w| - 1]
    ensures w <= s ==> s != "" && s[0] == w[0]
  {
    if EndsIn(s, w) {
      assert s[|s| - 1] == s[|s| - |w|..][|w| - 1];
    }
  }

  /** Printable ASCII has no white space at its ends. */
  lemma PrintableIsTrimmed(s: string)
    requires Printable(s)
    ensures !StartsInSpace(s) && !EndsInSpace(s)
  {
    assert s[0] in s && s[|s| - 1] in s;
    forall w | w in WIDE_SPACES
      ensures !EndsIn(s, w) && !(w <= s)
    {
      assert w != "" && w[0] > '~' && w[|w| - 1] > '~';
      hide EndsIn;
      SharedEnds(s, w);
    }
  }
}
