/**
 * The id of each district's job-title menu (reclass.js, printMenu and
 * jobSelectParse). The menu id is "jobSelect-" followed by the district
 * name with its first space replaced by '_'; jobSelectParse recovers the
 * district by dropping the prefix and replacing the first '_' by a space.
 * Both steps use String.prototype.replace with a string pattern, which
 * replaces only the first occurrence.
 */
module MenuIds {

  /** Prefix of every job-title menu id. */
  const SelectPrefix: string := "jobSelect-"

  /** `s.replace(pat, rep)` for a string pattern: only the first occurrence of `pat` is replaced. */
  function ReplaceFirst(s: string, pat: string, rep: string): string
    decreases |s|
  {
    if |pat| <= |s| && s[..|pat|] == pat then rep + s[|pat|..]
    else if s == [] then []
    else [s[0]] + ReplaceFirst(s[1..], pat, rep)
  }

  /** The id given to a district's menu: `'jobSelect-' + district.replace(' ','_')`. */
  function MenuId(district: string): string
  {
    SelectPrefix + ReplaceFirst(district, " ", "_")
  }

  /** The district jobSelectParse reads back: `id.replace('jobSelect-','').replace('_',' ')`. */
  function DistrictOfId(id: string): string
  {
    ReplaceFirst(ReplaceFirst(id, SelectPrefix, ""), "_", " ")
  }

  /** Every '_' in the name has a space somewhere before it. */
  ghost predicate UnderscoresFollowSpace(d: string)
  {
    forall k :: 0 <= k < |d| && d[k] == '_' ==> ' ' in d[..k]
  }

  /** A string that starts with the pattern has exactly that leading occurrence replaced. */
  lemma {:induction false} ReplaceLeading(pat: string, x: string, rep: string)
    ensures ReplaceFirst(pat + x, pat, rep) == rep + x
  {
    assert (pat + x)[..|pat|] == pat;
    assert (pat + x)[|pat|..] == x;
  }

  /** Dropping the prefix of a menu id gives back exactly what followed it. */
  lemma StripPrefix(x: string)
    ensures ReplaceFirst(SelectPrefix + x, SelectPrefix, "") == x
  {
    ReplaceLeading(SelectPrefix, x, "");
  }

  /** A first character other than the pattern's single character is kept. */
  lemma ReplaceFirstKeepsHead(c: char, rest: string, pat: char, rep: string)
    requires c != pat
    ensures ReplaceFirst([c] + rest, [pat], rep) == [c] + ReplaceFirst(rest, [pat], rep)
  {
    assert ([c] + rest)[..1] == [c];
    assert ([c] + rest)[1..] == rest;
  }

  /** A first character that is neither a space nor '_' does not affect the predicate. */
  lemma UnderscoresFollowSpaceTail(d: string)
    requires d != [] && d[0] != ' ' && d[0] != '_'
    ensures UnderscoresFollowSpace(d) <==> UnderscoresFollowSpace(d[1..])
  {
    var rest := d[1..];
    if UnderscoresFollowSpace(rest) {
      forall k | 0 <= k < |d| && d[k] == '_'
        ensures ' ' in d[..k]
      {
        assert rest[k - 1] == '_';
        assert d[..k] == [d[0]] + rest[..k - 1];
      }
    }
    if UnderscoresFollowSpace(d) {
      forall k | 0 <= k < |rest| && rest[k] == '_'
        ensures ' ' in rest[..k]
      {
        assert d[k + 1] == '_';
        assert d[..k + 1] == [d[0]] + rest[..k];
      }
    }
  }

  /**
   * Replacing the first space by '_' and then the first '_' by a space gives
   * the name back exactly when no '_' comes before the name's first space.
   */
  lemma {:induction false} SpaceUnderscoreRoundTrip(d: string)
    ensures ReplaceFirst(ReplaceFirst(d, " ", "_"), "_", " ") == d <==> UnderscoresFollowSpace(d)
    decreases |d|
  {
    if d == [] {
    } else {
      var rest := d[1..];
      assert d == [d[0]] + rest;
      if d[0] == ' ' {
        ReplaceLeading(" ", rest, "_");
        ReplaceLeading("_", rest, " ");
        forall k | 0 <= k < |d| && d[k] == '_'
          ensures ' ' in d[..k]
        {
          assert d[..k][0] == ' ';
        }
      } else {
        ReplaceFirstKeepsHead(d[0], rest, ' ', "_");
        var e' := ReplaceFirst(rest, " ", "_");
        if d[0] == '_' {
          ReplaceLeading("_", e', " ");
          assert ReplaceFirst([d[0]] + e', "_", " ")[0] == ' ';
          assert d[..0] == [];
        } else {
          ReplaceFirstKeepsHead(d[0], e', '_', " ");
          SpaceUnderscoreRoundTrip(rest);
          UnderscoresFollowSpaceTail(d);
        }
      }
    }
  }

  /**
   * jobSelectParse recovers the district from its menu id exactly when no
   * '_' in the district name comes before its first space.
   */
  lemma DistrictRoundTrip(d: string)
    ensures DistrictOfId(MenuId(d)) == d <==> UnderscoresFollowSpace(d)
  {
    StripPrefix(ReplaceFirst(d, " ", "_"));
    SpaceUnderscoreRoundTrip(d);
  }
}
