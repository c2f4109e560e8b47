/** The team-reference extractor: the distinct team slugs that the
    CODEOWNERS text names as `<prefix>@<org>/<slug>`.

    The pattern's optional prefix (letters, slashes and stars) cannot contain `@`, so it
    never affects which group is captured: every match is one occurrence of
    the marker `@<org>/` followed by the longest run of ASCII letters and
    hyphens (possibly empty, cut short by a digit or any other character).
    The scanner below finds those occurrences left to right and, like a
    regular-expression `findall`, resumes after the end of each match. */
module Extract {

  /** The capture group's character class `[a-zA-Z-]`. */
  predicate IsTeamChar(c: char)
  {
    'a' <= c <= 'z' || 'A' <= c <= 'Z' || c == '-'
  }

  function Marker(org: string): string
  {
    "@" + org + "/"
  }

  /** The marker occurs in `text` at position `q`. */
  predicate MarkerAt(text: string, org: string, q: nat)
  {
    q + |Marker(org)| <= |text| && text[q..q + |Marker(org)|] == Marker(org)
  }

  /** End of the longest run of team characters that starts at `i`. */
  function RunEnd(text: string, i: nat): (j: nat)
    requires i <= |text|
    ensures i <= j <= |text|
    ensures forall k :: i <= k < j ==> IsTeamChar(text[k])
    ensures j == |text| || !IsTeamChar(text[j])
    decreases |text| - i
  {
    if i < |text| && IsTeamChar(text[i]) then RunEnd(text, i + 1) else i
  }

  /** The slug captured by the marker occurrence at `q`. */
  function TeamAfter(text: string, org: string, q: nat): string
    requires MarkerAt(text, org, q)
  {
    text[q + |Marker(org)|..RunEnd(text, q + |Marker(org)|)]
  }

  /** The scanner, from position `i` on. */
  function Scan(text: string, org: string, i: nat): set<string>
    requires i <= |text|
    decreases |text| - i
  {
    if i == |text| then {}
    else if MarkerAt(text, org, i) then
      {TeamAfter(text, org, i)} + Scan(text, org, RunEnd(text, i + |Marker(org)|))
    else Scan(text, org, i + 1)
  }

  /** The set of team slugs referenced by a CODEOWNERS text. */
  function Extracted(text: string, org: string): set<string>
  {
    Scan(text, org, 0)
  }

  /** Reference definition: the slugs captured at every marker occurrence
      at or after `i`. */
  ghost function ReferencesFrom(text: string, org: string, i: nat): set<string>
  {
    set q: nat | i <= q < |text| && MarkerAt(text, org, q) :: TeamAfter(text, org, q)
  }

  /** No marker starts strictly inside the marker at `q` or inside the run
      that follows it, because `@` is neither a team character nor part of
      the organization name. */
  lemma NoMarkerInsideMatch(text: string, org: string, q: nat, p: nat)
    requires '@' !in org
    requires MarkerAt(text, org, q)
    requires q < p < RunEnd(text, q + |Marker(org)|)
    ensures !MarkerAt(text, org, p)
  {
    var m := Marker(org);
    if p < q + |m| {
      assert text[p] == text[q..q + |m|][p - q] == m[p - q];
      assert m[p - q] == if p - q <= |org| then org[p - q - 1] else '/';
    }
    assert text[p] != '@';
    if p + |m| <= |text| {
      assert text[p..p + |m|][0] == text[p];
    }
  }

  /** The scanner finds exactly the references at or after `i`. */
  lemma {:induction false} ScanFindsReferences(text: string, org: string, i: nat)
    requires '@' !in org
    requires i <= |text|
    ensures Scan(text, org, i) == ReferencesFrom(text, org, i)
    decreases |text| - i
  {
    if i == |text| {
      assert ReferencesFrom(text, org, i) == {};
    } else if MarkerAt(text, org, i) {
      var e := RunEnd(text, i + |Marker(org)|);
      ScanFindsReferences(text, org, e);
      forall q: nat | i < q < e
        ensures !MarkerAt(text, org, q)
      {
        NoMarkerInsideMatch(text, org, i, q);
      }
      assert ReferencesFrom(text, org, i)
          == {TeamAfter(text, org, i)} + ReferencesFrom(text, org, e);
    } else {
      ScanFindsReferences(text, org, i + 1);
      assert ReferencesFrom(text, org, i) == ReferencesFrom(text, org, i + 1);
    }
  }

  /** Every extracted slug is the maximal run of letters and hyphens right
      after some marker occurrence. */
  lemma {:induction false} ExtractedSound(text: string, org: string, t: string, i: nat)
    requires i <= |text|
    requires t in Scan(text, org, i)
    ensures exists q: nat :: i <= q < |text| && MarkerAt(text, org, q) && t == TeamAfter(text, org, q)
    decreases |text| - i
  {
    if MarkerAt(text, org, i) {
      var e := RunEnd(text, i + |Marker(org)|);
      if t != TeamAfter(text, org, i) {
        ExtractedSound(text, org, t, e);
      }
    } else if i < |text| {
      ExtractedSound(text, org, t, i + 1);
    }
  }

  /** `t` is the slug at the marker occurrence `q`: it follows the marker
      directly, holds only letters and hyphens, and the character after it
      (if any) is not one. */
  ghost predicate SlugAt(text: string, org: string, q: nat, t: string)
  {
    && MarkerAt(text, org, q)
    && q + |Marker(org)| + |t| <= |text|
    && text[q + |Marker(org)|..q + |Marker(org)| + |t|] == t
    && (forall k :: 0 <= k < |t| ==> IsTeamChar(t[k]))
    && (q + |Marker(org)| + |t| == |text| || !IsTeamChar(text[q + |Marker(org)| + |t|]))
  }

  lemma TeamAfterIsSlug(text: string, org: string, q: nat)
    requires MarkerAt(text, org, q)
    ensures SlugAt(text, org, q, TeamAfter(text, org, q))
  {
    var s, t := q + |Marker(org)|, TeamAfter(text, org, q);
    assert RunEnd(text, s) == s + |t|;
    forall k | 0 <= k < |t|
      ensures IsTeamChar(t[k])
    {
      assert t[k] == text[s + k];
    }
  }

  /** What an extracted slug looks like. */
  lemma ExtractedShape(text: string, org: string, t: string)
    requires t in Extracted(text, org)
    ensures exists q: nat :: SlugAt(text, org, q, t)
  {
    ExtractedSound(text, org, t, 0);
    var q: nat :| q < |text| && MarkerAt(text, org, q) && t == TeamAfter(text, org, q);
    TeamAfterIsSlug(text, org, q);
  }

  /** Every marker occurrence contributes its slug to the set. */
  lemma ExtractedComplete(text: string, org: string, q: nat)
    requires '@' !in org
    requires MarkerAt(text, org, q)
    ensures TeamAfter(text, org, q) in Extracted(text, org)
  {
    ScanFindsReferences(text, org, 0);
    assert TeamAfter(text, org, q) in ReferencesFrom(text, org, 0);
  }

  /** A digit ends the slug: `* @acme/web-team2` references `web-team`. */
  lemma DigitCutsScenario()
    ensures Extracted("* @acme/web-team2", "acme") == {"web-team"}
  {
    var text, org := "* @acme/web-team2", "acme";
    assert text[0..6][0] != Marker(org)[0];
    assert text[1..7][0] != Marker(org)[0];
    assert text[2..8] == Marker(org);
    assert RunEnd(text, 16) == 16;
    assert RunEnd(text, 8) == 16;
    assert text[8..16] == "web-team";
    assert Scan(text, org, 16) == {};
  }
}
