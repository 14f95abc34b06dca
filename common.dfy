/** Small shared vocabulary: optional values and the JavaScript string
    operations the handlers rely on (truthiness, startsWith, includes). */
module Common {

  datatype Option<+T> = None | Some(value: T)

  /** Instants are milliseconds since the epoch, as `Date.now()` gives them. */
  type Time = int

  /** The string form of a MongoDB ObjectId (`_id.toString()`); fresh ids are
      an input of every operation that creates a document. */
  type ObjectId = string

  predicate IsHexDigit(c: char) {
    '0' <= c <= '9' || 'a' <= c <= 'f'
  }

  /** `crypto.randomBytes(16).toString('hex')`: 32 lower-case hex digits. */
  type PhotoId = s: string | |s| == 32 && forall i | 0 <= i < |s| :: IsHexDigit(s[i])
    witness "00000000000000000000000000000000"

  /** What `cloudinary.uploader.destroy(publicId)` does: resolve with a
      `result` string ('ok', 'not found', ...) or reject. */
  datatype DestroyOutcome = Resolved(result: string) | Rejected

  /** JavaScript truthiness of a possibly-undefined string: `undefined` and
      `''` are falsy, every other string is truthy. */
  predicate Truthy(s: Option<string>) {
    s.Some? && s.value != ""
  }

  /** `s.startsWith(prefix)`. */
  predicate StartsWith(s: string, prefix: string) {
    |prefix| <= |s| && s[..|prefix|] == prefix
  }

  /** `sub` occurs in `s` starting at index `i`. */
  predicate OccursAt(s: string, sub: string, i: int) {
    0 <= i && i + |sub| <= |s| && s[i..i + |sub|] == sub
  }

  /** `s || ''` on a possibly-undefined string. */
  function OrEmpty(s: Option<string>): (r: string)
    ensures Truthy(s) ==> r == s.value
    ensures !Truthy(s) ==> r == ""
  {
    if s.Some? then s.value else ""
  }

  /** `s.includes(sub)`. */
  predicate Includes(s: string, sub: string) {
    exists i | 0 <= i <= |s| - |sub| :: OccursAt(s, sub, i)
  }

  /** An occurrence fixes the characters it covers. */
  lemma OccursAtHead(s: string, sub: string, i: int)
    requires |sub| >= 2
    ensures OccursAt(s, sub, i) ==> s[i] == sub[0] && s[i + 1] == sub[1]
  {
    if OccursAt(s, sub, i) {
      assert s[i..i + |sub|][0] == s[i] && s[i..i + |sub|][1] == s[i + 1];
    }
  }

  lemma StartsWithIncludes(s: string, prefix: string)
    requires StartsWith(s, prefix)
    ensures Includes(s, prefix)
  {
    assert OccursAt(s, prefix, 0);
  }

  /** A message includes its own opening words. */
  lemma LeadIncluded(lead: string, rest: string)
    ensures Includes(lead + rest, lead)
  {
    assert (lead + rest)[..|lead|] == lead;
    StartsWithIncludes(lead + rest, lead);
  }
}
