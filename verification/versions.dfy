/** The start-up test of public/background.js and background.js that
    clears storage after a major update: the stored add-on version and the
    manifest version are split on '.', and their first two parts are
    compared as strings, with JavaScript's `<` on strings. */
module Versions {
  import opened Wrappers
  import opened Text

  /** `v.split(".")[i]`: `None` stands for `undefined` past the last part. */
  function Part(v: string, i: nat): (r: Option<string>)
    ensures r.Some? <==> i < |Split(v, '.')|
    ensures r.Some? ==> '.' !in r.value
  {
    var parts := Split(v, '.');
    if i < |parts| then Some(parts[i]) else None
  }

  /** JavaScript `a < b` on two values that are strings or `undefined`: a
      comparison involving `undefined` is false. */
  predicate Less(a: Option<string>, b: Option<string>) {
    a.Some? && b.Some? && StrLess(a.value, b.value)
  }

  /** Storage is cleared when no version is stored (absent or empty), when
      the stored major part is string-less than the manifest's, or when the
      major parts are equal and the stored minor part is string-less. */
  predicate NeedsReset(stored: Option<string>, manifest: string) {
    || stored.None?
    || stored.value == ""
    || Less(Part(stored.value, 0), Part(manifest, 0))
    || (Part(stored.value, 0) == Part(manifest, 0) && Less(Part(stored.value, 1), Part(manifest, 1)))
  }

  /** The first two parts of "major.minor" followed by nothing or by more
      dotted parts. */
  lemma VersionParts(major: string, minor: string, rest: string)
    requires '.' !in major && '.' !in minor
    requires rest == [] || rest[0] == '.'
    ensures Part(major + "." + minor + rest, 0) == Some(major)
    ensures Part(major + "." + minor + rest, 1) == Some(minor)
  {
    var v := major + "." + minor + rest;
    var tail := "." + minor + rest;
    assert v == major + tail;
    SplitLead(major, tail, '.');
    assert tail[1..] == minor + rest;
    SplitLead(minor, rest, '.');
  }

  /** For versions written "major.minor[.more]", storage is cleared exactly
      when the stored major part is string-less, or the majors agree and the
      stored minor part is string-less. A new third part alone never
      clears. */
  lemma ResetByParts(m1: string, n1: string, r1: string, m2: string, n2: string, r2: string)
    requires '.' !in m1 && '.' !in n1 && '.' !in m2 && '.' !in n2
    requires (r1 == [] || r1[0] == '.') && (r2 == [] || r2[0] == '.')
    ensures NeedsReset(Some(m1 + "." + n1 + r1), m2 + "." + n2 + r2) <==>
      StrLess(m1, m2) || (m1 == m2 && StrLess(n1, n2))
    ensures m1 == m2 && n1 == n2 ==> !NeedsReset(Some(m1 + "." + n1 + r1), m2 + "." + n2 + r2)
  {
    VersionParts(m1, n1, r1);
    VersionParts(m2, n2, r2);
    assert (m1 + "." + n1 + r1)[|m1|] == '.';
    StrLessIrreflexive(n1);
  }

  /** Versions compare as text, not as numbers: going from 9.0 to 10.0
      does not clear storage, while going from 1.2 to 2.0 does. */
  lemma TextualComparison()
    ensures !NeedsReset(Some("9.0"), "10.0")
    ensures NeedsReset(Some("1.2"), "2.0")
  {
    ResetByParts("9", "0", "", "10", "0", "");
    assert "9" + "." + "0" + "" == "9.0";
    assert "10" + "." + "0" + "" == "10.0";
    ResetByParts("1", "2", "", "2", "0", "");
    assert "1" + "." + "2" + "" == "1.2";
    assert "2" + "." + "0" + "" == "2.0";
  }

  /** Starting the same version again never clears storage, whatever the
      version text. */
  lemma SameVersionKept(v: string)
    requires v != ""
    ensures !NeedsReset(Some(v), v)
  {
    var p := Part(v, 0);
    var q := Part(v, 1);
    if p.Some? { StrLessIrreflexive(p.value); }
    if q.Some? { StrLessIrreflexive(q.value); }
  }
}
