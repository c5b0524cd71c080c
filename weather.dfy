/** The file-name part of `create_variable_weather` in
    energym/utils/common.py. Without a variation nothing is created and the
    result is `None`; otherwise the new EPW file is named after the part of
    the original path before its first ".epw", followed by
    `_Random_<mu>_<std>.epw`. The mean and standard deviation arrive here
    already rendered by `str`. */
module WeatherFile {
  import opened Results

  const EpwExtension := ".epw"
  const RandomTag := "_Random_"

  /** `pat` occurs in `s` starting at index `i`. */
  predicate OccursAt(s: string, pat: string, i: int) {
    0 <= i && i + |pat| <= |s| && s[i..i + |pat|] == pat
  }

  ghost predicate Absent(s: string, pat: string) {
    forall i :: !OccursAt(s, pat, i)
  }

  lemma OccursInTail(s: string, pat: string, i: int)
    requires |s| > 0 && 0 < i
    ensures OccursAt(s, pat, i) <==> OccursAt(s[1..], pat, i - 1)
  {
    if 0 < i && i + |pat| <= |s| {
      assert s[1..][i - 1..i - 1 + |pat|] == s[i..i + |pat|];
    }
  }

  /** `s.split(sep)[0]`: the part of `s` before the first occurrence of `sep`,
      or all of `s` when `sep` does not occur. */
  function PrefixBefore(s: string, sep: string): (r: string)
    requires |sep| > 0
    ensures r <= s
    ensures forall i :: 0 <= i < |r| ==> !OccursAt(s, sep, i)
    ensures r == s || OccursAt(s, sep, |r|)
    decreases |s|
  {
    if |s| < |sep| then s
    else if s[..|sep|] == sep then []
    else
      var rest := PrefixBefore(s[1..], sep);
      assert forall i :: 0 < i <= |rest| + 1 ==> (OccursAt(s, sep, i) <==> OccursAt(s[1..], sep, i - 1)) by {
        forall i | 0 < i <= |rest| + 1 ensures OccursAt(s, sep, i) <==> OccursAt(s[1..], sep, i - 1) {
          OccursInTail(s, sep, i);
        }
      }
      [s[0]] + rest
  }

  /** The three properties of PrefixBefore pin it down: any prefix of `s` with
      no occurrence of `sep` before its end, ending at an occurrence or at the
      end of `s`, is that prefix. */
  lemma PrefixBeforeUnique(s: string, sep: string, r: string)
    requires |sep| > 0 && r <= s
    requires forall i :: 0 <= i < |r| ==> !OccursAt(s, sep, i)
    requires r == s || OccursAt(s, sep, |r|)
    ensures r == PrefixBefore(s, sep)
  {
    var p := PrefixBefore(s, sep);
    assert |r| == |p|;
    assert r == s[..|r|] && p == s[..|p|];
  }

  /** The name `create_variable_weather` returns (and hands to `to_epw`). */
  function VariableWeatherName(originalEpwFile: string, variation: Option<(string, string)>): (r: Option<string>)
    ensures r.None? <==> variation.None?
    ensures r.Some? ==> |r.value| >= |EpwExtension| && r.value[|r.value| - |EpwExtension|..] == EpwExtension
    ensures r.Some? ==> PrefixBefore(originalEpwFile, EpwExtension) <= r.value
  {
    match variation
    case None => None
    case Some((mu, std)) =>
      Some(PrefixBefore(originalEpwFile, EpwExtension) + RandomTag + mu + "_" + std + EpwExtension)
  }

  // ---------------------------------------------------------------------
  // Where ".epw" can occur

  /** ".epw" has no proper prefix that is also a suffix, so an occurrence
      cannot start inside `u` and run into a following ".epw". */
  lemma NoOccurrenceRunsIntoExtension(u: string)
    requires Absent(u, EpwExtension)
    ensures forall i :: 0 <= i < |u| ==> !OccursAt(u + EpwExtension, EpwExtension, i)
  {
    var s := u + EpwExtension;
    forall i | 0 <= i < |u| ensures !OccursAt(s, EpwExtension, i) {
      if i + 4 <= |u| {
        assert s[i..i + 4] == u[i..i + 4];
        assert !OccursAt(u, EpwExtension, i);
      } else if i + 4 <= |s| {
        assert s[i..i + 4][|u| - i] == s[|u|] == '.';
      }
    }
  }

  /** An occurrence of ".epw" in `u + t`, with `t` starting with '_', lies in
      `u` or in `t`: '_' is not a letter of ".epw". */
  lemma NoOccurrenceAcrossUnderscore(u: string, t: string)
    requires |t| > 0 && t[0] == '_'
    requires Absent(u, EpwExtension) && Absent(t, EpwExtension)
    ensures Absent(u + t, EpwExtension)
  {
    var s := u + t;
    forall i ensures !OccursAt(s, EpwExtension, i) {
      if 0 <= i && i + 4 <= |s| {
        if i + 4 <= |u| {
          assert s[i..i + 4] == u[i..i + 4];
          assert !OccursAt(u, EpwExtension, i);
        } else if i >= |u| {
          assert s[i..i + 4] == t[i - |u|..i - |u| + 4];
          assert !OccursAt(t, EpwExtension, i - |u|);
        } else {
          assert s[i..i + 4][|u| - i] == s[|u|] == '_';
        }
      }
    }
  }

  /** A string without the letter 'w' cannot contain ".epw". */
  lemma AbsentWithoutW(t: string)
    requires 'w' !in t
    ensures Absent(t, EpwExtension)
  {
    forall i ensures !OccursAt(t, EpwExtension, i) {
      if 0 <= i && i + 4 <= |t| {
        assert t[i..i + 4][3] == t[i + 3];
        assert t[i + 3] in t;
      }
    }
  }

  /** A string without '.' cannot contain ".epw". */
  lemma AbsentWithoutDot(t: string)
    requires '.' !in t
    ensures Absent(t, EpwExtension)
  {
    forall i ensures !OccursAt(t, EpwExtension, i) {
      if 0 <= i && i + 4 <= |t| {
        assert t[i..i + 4][0] == t[i];
        assert t[i] in t;
      }
    }
  }

  /** The usual case: for `base + ".epw"` with no ".epw" inside `base`, the
      split keeps exactly `base`. */
  lemma StemOfEpwName(base: string)
    requires Absent(base, EpwExtension)
    ensures PrefixBefore(base + EpwExtension, EpwExtension) == base
  {
    NoOccurrenceRunsIntoExtension(base);
    assert (base + EpwExtension)[|base|..|base| + 4] == EpwExtension;
    PrefixBeforeUnique(base + EpwExtension, EpwExtension, base);
  }

  /** The stem PrefixBefore returns never contains the separator itself. */
  lemma PrefixBeforeAbsent(s: string)
    ensures Absent(PrefixBefore(s, EpwExtension), EpwExtension)
  {
    var p := PrefixBefore(s, EpwExtension);
    forall i ensures !OccursAt(p, EpwExtension, i) {
      if 0 <= i && i + 4 <= |p| {
        assert s[i..i + 4] == p[i..i + 4];
        assert !OccursAt(s, EpwExtension, i);
      }
    }
  }

  /** Splitting the derived name at ".epw" again gives back the original
      stem with the `_Random_<mu>_<std>` tag, and the derived name is exactly
      that plus ".epw", when the rendered numbers contain no 'w' (no rendering
      of a Python number does). */
  lemma DerivedNameSplitsBack(originalEpwFile: string, mu: string, std: string)
    requires 'w' !in mu && 'w' !in std
    ensures var stem := PrefixBefore(originalEpwFile, EpwExtension);
            var tagged := stem + RandomTag + mu + "_" + std;
            var name := VariableWeatherName(originalEpwFile, Some((mu, std))).value;
      && PrefixBefore(name, EpwExtension) == tagged
      && name == tagged + EpwExtension
  {
    var stem := PrefixBefore(originalEpwFile, EpwExtension);
    var tag := RandomTag + mu + "_" + std;
    assert forall c :: c in tag ==> c in RandomTag || c in mu || c == '_' || c in std;
    assert 'w' !in tag;
    AbsentWithoutW(tag);
    PrefixBeforeAbsent(originalEpwFile);
    NoOccurrenceAcrossUnderscore(stem, tag);
    assert stem + RandomTag + mu + "_" + std == stem + tag;
    StemOfEpwName(stem + tag);
  }

  /** Worked case: a plain EPW path keeps its base name. */
  lemma VariableWeatherNamePlain()
    ensures VariableWeatherName("X.epw", Some(("0", "2"))) == Some("X_Random_0_2.epw")
    ensures VariableWeatherName("X.epw", None) == None
  {
    AbsentWithoutW("X");
    StemOfEpwName("X");
    assert "X" + EpwExtension == "X.epw";
    assert "X" + RandomTag + "0" + "_" + "2" + EpwExtension == "X_Random_0_2.epw";
  }

  /** Worked case: only the part before the FIRST ".epw" is kept. */
  lemma VariableWeatherNameFirstOccurrence()
    ensures VariableWeatherName("a.epw.b.epw", Some(("0", "2"))) == Some("a_Random_0_2.epw")
  {
    var s := "a.epw.b.epw";
    assert s[1..5] == EpwExtension;
    assert s[0..4] != EpwExtension by { assert s[0] != '.'; }
    PrefixBeforeUnique(s, EpwExtension, "a");
    assert "a" + RandomTag + "0" + "_" + "2" + EpwExtension == "a_Random_0_2.epw";
  }

  /** Worked case: a path without ".epw" is kept whole. */
  lemma VariableWeatherNameNoExtension()
    ensures VariableWeatherName("wx", Some(("1.5", "0.1"))) == Some("wx_Random_1.5_0.1.epw")
  {
    var w := "wx";
    assert '.' !in w;
    AbsentWithoutDot(w);
    PrefixBeforeUnique(w, EpwExtension, w);
    assert w + RandomTag + "1.5" + "_" + "0.1" + EpwExtension == "wx_Random_1.5_0.1.epw";
  }
}
