/** The identifier sanitizer through which column names reach SQL text
    (sanitize_identifier), and the upper-casing of column types. */
module Identifiers {

  /** The characters of the class [0-9A-Za-z_]. */
  predicate IsIdentChar(c: char) {
    '0' <= c <= '9' || 'A' <= c <= 'Z' || 'a' <= c <= 'z' || c == '_'
  }

  predicate IsIdentifier(s: string) {
    forall i :: 0 <= i < |s| ==> IsIdentChar(s[i])
  }

  /** re.sub(r'[^0-9A-Za-z_]', '_', name): every character outside the class
      becomes an underscore. Total: it never fails. */
  function Sanitize(name: string): (r: string)
    ensures |r| == |name|
    ensures IsIdentifier(r)
  {
    if name == [] then []
    else [if IsIdentChar(name[0]) then name[0] else '_'] + Sanitize(name[1..])
  }

  /** Character by character: an allowed character is kept, any other one
      is replaced by an underscore. */
  lemma {:induction false} SanitizeAt(name: string, i: nat)
    requires i < |name|
    ensures Sanitize(name)[i] == if IsIdentChar(name[i]) then name[i] else '_'
  {
    if i > 0 {
      SanitizeAt(name[1..], i - 1);
    }
  }

  /** A name that is already an identifier passes through unchanged. */
  lemma SanitizeKeepsIdentifiers(name: string)
    requires IsIdentifier(name)
    ensures Sanitize(name) == name
  {
    forall i | 0 <= i < |name|
      ensures Sanitize(name)[i] == name[i]
    {
      SanitizeAt(name, i);
    }
  }

  /** Sanitizing twice, as the add-column route and add_column_sqlite do
      together, is the same as sanitizing once. */
  lemma SanitizeIdempotent(name: string)
    ensures Sanitize(Sanitize(name)) == Sanitize(name)
  {
    SanitizeKeepsIdentifiers(Sanitize(name));
  }

  function UpperChar(c: char): char {
    if 'a' <= c <= 'z' then (c as int - 'a' as int + 'A' as int) as char else c
  }

  /** str.upper() on the ASCII letters: the column type as it is declared. */
  function Upper(s: string): (r: string)
    ensures |r| == |s|
    ensures forall i :: 0 <= i < |s| ==> !('a' <= r[i] <= 'z')
    ensures forall i :: 0 <= i < |s| && !('a' <= s[i] <= 'z') ==> r[i] == s[i]
    ensures forall i :: 0 <= i < |s| && 'a' <= s[i] <= 'z' ==> r[i] as int == s[i] as int - 32
  {
    if s == [] then [] else [UpperChar(s[0])] + Upper(s[1..])
  }
}
