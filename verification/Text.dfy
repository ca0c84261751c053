/**
 The string operations of the runtime that the services rely on, character by character.
 */
module Text {

  /** The characters that `trim` removes: ECMAScript white space and line terminators. */
  predicate IsSpace(c: char) {
    || c == ' ' || '\t' <= c <= '\r' || c == '\U{00A0}' || c == '\U{1680}' || '\U{2000}' <= c <= '\U{200A}'
    || c == '\U{2028}' || c == '\U{2029}' || c == '\U{202F}' || c == '\U{205F}' || c == '\U{3000}' || c == '\U{FEFF}'
  }

  const SPACES := "\t\n\U{000B}\U{000C}\r \U{00A0}\U{1680}\U{2000}\U{2001}\U{2002}\U{2003}\U{2004}\U{2005}\U{2006}\U{2007}\U{2008}\U{2009}\U{200A}\U{2028}\U{2029}\U{202F}\U{205F}\U{3000}\U{FEFF}"

  /** There are twenty-five of them. */
  lemma SpacesAre(c: char)
    ensures IsSpace(c) <==> c in SPACES
  {
    if IsSpace(c) {
      assert SPACES[0] == '\t' && SPACES[1] == '\n' && SPACES[2] == '\U{000B}' && SPACES[3] == '\U{000C}' && SPACES[4] == '\r';
      assert SPACES[5] == ' ' && SPACES[6] == '\U{00A0}' && SPACES[7] == '\U{1680}';
      assert SPACES[8] == '\U{2000}' && SPACES[9] == '\U{2001}' && SPACES[10] == '\U{2002}' && SPACES[11] == '\U{2003}';
      assert SPACES[12] == '\U{2004}' && SPACES[13] == '\U{2005}' && SPACES[14] == '\U{2006}' && SPACES[15] == '\U{2007}';
      assert SPACES[16] == '\U{2008}' && SPACES[17] == '\U{2009}' && SPACES[18] == '\U{200A}' && SPACES[19] == '\U{2028}';
      assert SPACES[20] == '\U{2029}' && SPACES[21] == '\U{202F}' && SPACES[22] == '\U{205F}' && SPACES[23] == '\U{3000}';
      assert SPACES[24] == '\U{FEFF}';
    }
  }

  function TrimLeft(s: string): string {
    if s != "" && IsSpace(s[0]) then TrimLeft(s[1..]) else s
  }

  function TrimRight(s: string): string {
    if s != "" && IsSpace(s[|s| - 1]) then TrimRight(s[..|s| - 1]) else s
  }

  function Trim(s: string): string {
    TrimRight(TrimLeft(s))
  }

  predicate AllSpace(s: string) {
    forall i | 0 <= i < |s| :: IsSpace(s[i])
  }

  /** `if (text?.trim())`: there is something other than white space in it. */
  lemma {:induction false} TrimIsEmptyIff(s: string)
    ensures Trim(s) == "" <==> AllSpace(s)
  {
    if s != "" {
      if IsSpace(s[0]) {
        TrimIsEmptyIff(s[1..]);
        assert AllSpace(s) ==> AllSpace(s[1..]);
        assert forall i | 0 < i < |s| :: s[i] == s[1..][i - 1];
      } else {
        KeepsFirst(s);
      }
    }
  }

  lemma {:induction false} KeepsFirst(s: string)
    requires s != "" && !IsSpace(s[0])
    ensures TrimRight(s) != "" && TrimRight(s)[0] == s[0]
  {
    if IsSpace(s[|s| - 1]) { KeepsFirst(s[..|s| - 1]); }
  }
}
