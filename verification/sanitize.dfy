/** Dye names as FlowJo accepts them in attribute values: a one-pass character translation
    (`string.maketrans` and `str.translate`) that replaces each forbidden character by the
    substitution character. The unsanitised name stays the lookup key everywhere else. */
module Sanitize {
  import opened Splice

  /** dye_forbidden_chars */
  const ForbiddenChars: string := "/"

  /** dye_substitution_char */
  const SubstitutionChar: char := '_'

  /** dye_substitution_table: every forbidden character maps to the substitution character,
      every other character to itself (it is simply absent from the map). */
  const SubstitutionTable: map<char, char> := map c | c in ForbiddenChars :: SubstitutionChar

  /** `s.translate(table)`: each character is looked up once in the table, so the result has the
      same length and is the input with every table key replaced by its image. */
  function Translate(s: string, table: map<char, char>): (r: string)
    ensures |r| == |s|
    ensures forall i :: 0 <= i < |s| ==> r[i] == (if s[i] in table then table[s[i]] else s[i])
  {
    if s == [] then []
    else [if s[0] in table then table[s[0]] else s[0]] + Translate(s[1..], table)
  }

  /** `d.translate(dye_substitution_table)` */
  function SanitizeDye(d: string): string
  {
    Translate(d, SubstitutionTable)
  }

  /** Sanitising keeps the length, puts `_` wherever the name has `/`, keeps every other
      character, and leaves no `/` behind. */
  lemma SanitizeDyeSpec(d: string)
    ensures |SanitizeDye(d)| == |d|
    ensures forall i :: 0 <= i < |d| ==> SanitizeDye(d)[i] == (if d[i] == '/' then '_' else d[i])
    ensures '/' !in SanitizeDye(d)
  {
    assert forall c :: c in SubstitutionTable <==> c == '/';
  }

  /** A translation whose images are never themselves keys is idempotent. */
  lemma TranslateIdempotent(s: string, table: map<char, char>)
    requires forall c | c in table :: table[c] !in table
    ensures Translate(Translate(s, table), table) == Translate(s, table)
  {
  }

  /** Sanitising twice is sanitising once. */
  lemma SanitizeIdempotent(d: string)
    ensures SanitizeDye(SanitizeDye(d)) == SanitizeDye(d)
  {
    assert forall c | c in SubstitutionTable :: SubstitutionTable[c] !in SubstitutionTable by {
      assert forall c :: c in SubstitutionTable <==> c == '/';
    }
    TranslateIdempotent(d, SubstitutionTable);
  }

  /** A name without `/` is emitted as it is. */
  lemma SanitizeKeepsClean(d: string)
    requires '/' !in d
    ensures SanitizeDye(d) == d
  {
    SanitizeDyeSpec(d);
  }

  /** Sanitising neither adds nor removes double quotes or equals signs. */
  lemma SanitizeKeepsInert(d: string)
    ensures Inert(SanitizeDye(d)) <==> Inert(d)
  {
    SanitizeDyeSpec(d);
    var r := SanitizeDye(d);
    assert forall i :: 0 <= i < |d| ==> (r[i] == '"' <==> d[i] == '"') && (r[i] == '=' <==> d[i] == '=');
  }

  /** Sanitising neither adds nor removes any character other than `/` and `_`. */
  lemma SanitizeKeepsChar(d: string, c: char)
    requires c != '/' && c != '_'
    ensures c in SanitizeDye(d) <==> c in d
  {
    SanitizeDyeSpec(d);
    var r := SanitizeDye(d);
    assert forall i :: 0 <= i < |d| ==> (r[i] == c <==> d[i] == c);
    if c in r {
      var i :| 0 <= i < |r| && r[i] == c;
      assert d[i] == c;
    }
    if c in d {
      var i :| 0 <= i < |d| && d[i] == c;
      assert r[i] == c;
    }
  }

  /** The forbidden-character scenario: `FL1/FL2` is emitted as `FL1_FL2`. */
  lemma SanitizeExample()
    ensures SanitizeDye("FL1/FL2") == "FL1_FL2"
  {
    SanitizeDyeSpec("FL1/FL2");
  }
}
