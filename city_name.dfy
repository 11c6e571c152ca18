/**
 * The join key of the risk map: a municipality name from either data set,
 * brought to one canonical spelling so that the boundary file and the risk
 * table can be matched.
 */
module CityName {
  import opened Wrappers
  import opened JsText

  const NoBreakSpace: char := '\U{A0}'

  /** The prefix that `/^city of /i` removes once the name is lower-cased. */
  const CityOf: string := "city of "

  /** Removes one leading `city of `, if there is one. */
  function StripCityOf(s: string): (r: string)
    ensures |r| <= |s| && r == s[|s| - |r|..]
    ensures |s| >= |CityOf| && s[..|CityOf|] == CityOf ==> |r| == |s| - |CityOf|
    ensures !(|s| >= |CityOf| && s[..|CityOf|] == CityOf) ==> r == s
  {
    if |s| >= |CityOf| && s[..|CityOf|] == CityOf then s[|CityOf|..] else s
  }

  /** The characters a key may not hold. */
  predicate IsForeignToKey(c: char)
  {
    c == '\r' || c == NoBreakSpace || IsAsciiUpper(c)
  }

  /** The cleaning steps before the prefix is dropped. */
  function Cleaned(raw: string): string
  {
    ToLower(Trim(ReplaceChar(RemoveChar(raw, '\r'), NoBreakSpace, ' ')))
  }

  /** What every key looks like: none of the foreign characters, no whitespace at the end. */
  predicate IsKeyShaped(key: string)
  {
    && (forall i :: 0 <= i < |key| ==> !IsForeignToKey(key[i]))
    && (key == [] || !IsJsSpace(key[|key| - 1]))
  }

  lemma SuffixKeyShaped(s: string, k: nat)
    requires IsKeyShaped(s) && k <= |s|
    ensures IsKeyShaped(s[k..])
  {
    assert forall i :: 0 <= i < |s| - k ==> s[k..][i] == s[k + i];
  }

  /** Neither a carriage return nor a no-break space anywhere. */
  predicate IsUnbroken(s: string)
  {
    forall i :: 0 <= i < |s| ==> s[i] != '\r' && s[i] != NoBreakSpace
  }

  lemma ReplacedUnbroken(raw: string)
    ensures IsUnbroken(ReplaceChar(RemoveChar(raw, '\r'), NoBreakSpace, ' '))
  {
    var noCr := RemoveChar(raw, '\r');
    var spaced := ReplaceChar(noCr, NoBreakSpace, ' ');
    forall i | 0 <= i < |spaced| ensures spaced[i] != '\r' && spaced[i] != NoBreakSpace {
      assert noCr[i] in noCr;
    }
  }

  lemma TrimmedUnbroken(s: string)
    requires IsUnbroken(s)
    ensures IsUnbroken(Trim(s))
  {
    var k := TrimOffset(s);
    SliceUnbroken(s, k, k + |Trim(s)|);
  }

  lemma SliceUnbroken(s: string, lo: nat, hi: nat)
    requires IsUnbroken(s) && lo <= hi <= |s|
    ensures IsUnbroken(s[lo..hi])
  {
    forall i | 0 <= i < hi - lo ensures s[lo..hi][i] != '\r' && s[lo..hi][i] != NoBreakSpace {
      assert s[lo..hi][i] == s[lo + i];
    }
  }

  lemma LoweredKeyShaped(s: string)
    requires IsUnbroken(s) && IsTrimmed(s)
    ensures IsKeyShaped(ToLower(s))
  {
    if s != [] {
      LowerKeepsSpaces(s[|s| - 1]);
    }
  }

  lemma CleanedShape(raw: string)
    ensures IsKeyShaped(Cleaned(raw))
  {
    var spaced := ReplaceChar(RemoveChar(raw, '\r'), NoBreakSpace, ' ');
    ReplacedUnbroken(raw);
    TrimmedUnbroken(spaced);
    LoweredKeyShaped(Trim(spaced));
  }

  lemma LowerKeepsSpaces(c: char)
    ensures IsJsSpace(LowerChar(c)) == IsJsSpace(c)
  {
  }

  /**
   * `normalizeCity`: absent or empty gives the empty key; otherwise carriage
   * returns are deleted, no-break spaces become spaces, the ends are trimmed,
   * the name is lower-cased and one leading `city of ` is dropped.
   */
  function NormalizeCity(name: Option<string>): (key: string)
    ensures name.None? || name == Some("") ==> key == ""
  {
    if name.None? || name.value == "" then "" else StripCityOf(Cleaned(name.value))
  }

  /**
   * Every key is key-shaped: it never holds a carriage return, a no-break
   * space or a capital letter, and never ends in whitespace.
   */
  lemma NormalizeCityShape(name: Option<string>)
    ensures IsKeyShaped(NormalizeCity(name))
  {
    if name.Some? && name.value != "" {
      CleanedShape(name.value);
      var lowered := Cleaned(name.value);
      SuffixKeyShaped(lowered, |lowered| - |StripCityOf(lowered)|);
    }
  }

  /** The cleaning steps keep at least the first character of a trimmed, non-empty name. */
  lemma CleanedNotEmpty(raw: string)
    requires raw != "" && IsTrimmed(raw)
    ensures Cleaned(raw) != ""
  {
    var noCr := RemoveChar(raw, '\r');
    var spaced := ReplaceChar(noCr, NoBreakSpace, ' ');
    assert noCr != [] && noCr[0] == raw[0] by {
      assert raw == [raw[0]] + raw[1..];
    }
    assert spaced[0] == raw[0] && !IsJsSpace(raw[0]);
    TrimEmpty(spaced);
  }

  /** A trimmed, non-empty name never normalises to the empty key. */
  lemma TrimmedNameHasKey(raw: string)
    requires raw != "" && IsTrimmed(raw)
    ensures NormalizeCity(Some(raw)) != ""
  {
    var lowered := Cleaned(raw);
    CleanedNotEmpty(raw);
    CleanedShape(raw);
    assert lowered[|lowered| - 1] != CityOf[|CityOf| - 1];
    assert lowered != CityOf;
  }

  // Lower-casing commutes with each earlier step of the normaliser.

  /** Lower-casing neither creates nor destroys `c` when `c` is not a letter. */
  predicate IsNotAsciiLetter(c: char)
  {
    !IsAsciiUpper(c) && !('a' <= c <= 'z')
  }

  lemma {:induction false} LowerRemoveCommute(s: string, c: char)
    requires IsNotAsciiLetter(c)
    ensures RemoveChar(ToLower(s), c) == ToLower(RemoveChar(s, c))
  {
    if s != [] {
      LowerRemoveCommute(s[1..], c);
      assert ToLower(s)[1..] == ToLower(s[1..]);
      assert ToLower(s)[0] == c <==> s[0] == c;
      if s[0] != c {
        assert ToLower([s[0]] + RemoveChar(s[1..], c)) == [LowerChar(s[0])] + ToLower(RemoveChar(s[1..], c));
      }
    }
  }

  lemma LowerReplaceCommute(s: string, from: char, to: char)
    requires IsNotAsciiLetter(from) && !IsAsciiUpper(to)
    ensures ReplaceChar(ToLower(s), from, to) == ToLower(ReplaceChar(s, from, to))
  {
    var a := ReplaceChar(ToLower(s), from, to);
    var b := ToLower(ReplaceChar(s, from, to));
    assert |a| == |b|;
    forall i | 0 <= i < |a| ensures a[i] == b[i] {
      assert ToLower(s)[i] == from <==> s[i] == from;
    }
  }

  lemma {:induction false} LowerTrimStartCommute(s: string)
    ensures TrimStart(ToLower(s)) == ToLower(TrimStart(s))
  {
    if s != [] {
      LowerKeepsSpaces(s[0]);
      assert ToLower(s)[1..] == ToLower(s[1..]);
      LowerTrimStartCommute(s[1..]);
    }
  }

  lemma {:induction false} LowerTrimEndCommute(s: string)
    ensures TrimEnd(ToLower(s)) == ToLower(TrimEnd(s))
  {
    if s != [] {
      LowerKeepsSpaces(s[|s| - 1]);
      var init := s[..|s| - 1];
      assert ToLower(s)[..|s| - 1] == ToLower(init);
      LowerTrimEndCommute(init);
    }
  }

  lemma LowerTrimCommute(s: string)
    ensures Trim(ToLower(s)) == ToLower(Trim(s))
  {
    LowerTrimStartCommute(s);
    LowerTrimEndCommute(TrimStart(s));
  }

  lemma LowerIdempotent(s: string)
    ensures ToLower(ToLower(s)) == ToLower(s)
  {
    assert forall i :: 0 <= i < |s| ==> ToLower(ToLower(s))[i] == ToLower(s)[i];
  }

  /**
   * The key ignores ASCII capitalisation: a name and its lower-cased spelling
   * (so `CITY OF MANILA` and `City of Manila`) join to the same key.
   */
  lemma NormalizeIgnoresCase(s: string)
    ensures NormalizeCity(Some(ToLower(s))) == NormalizeCity(Some(s))
  {
    if s != "" {
      assert ToLower(s) != "";
      CleanedIgnoresCase(s);
    }
  }

  lemma CleanedIgnoresCase(s: string)
    ensures Cleaned(ToLower(s)) == Cleaned(s)
  {
    var noCr := RemoveChar(s, '\r');
    var spaced := ReplaceChar(noCr, NoBreakSpace, ' ');
    assert RemoveChar(ToLower(s), '\r') == ToLower(noCr) by {
      LowerRemoveCommute(s, '\r');
    }
    assert ReplaceChar(ToLower(noCr), NoBreakSpace, ' ') == ToLower(spaced) by {
      LowerReplaceCommute(noCr, NoBreakSpace, ' ');
    }
    assert Trim(ToLower(spaced)) == ToLower(Trim(spaced)) by {
      LowerTrimCommute(spaced);
    }
    LowerIdempotent(Trim(spaced));
  }

  /** A clean name: no capitals, carriage returns or no-break spaces, no surrounding whitespace, no `city of ` of its own. */
  predicate IsCleanName(x: string)
  {
    && x != [] && IsTrimmed(x)
    && (forall i :: 0 <= i < |x| ==> !IsForeignToKey(x[i]))
    && !(|x| >= |CityOf| && x[..|CityOf|] == CityOf)
  }

  lemma CleanNameUntouched(x: string)
    requires forall i :: 0 <= i < |x| ==> !IsForeignToKey(x[i])
    ensures '\r' !in x && NoBreakSpace !in x
    ensures RemoveChar(x, '\r') == x && ReplaceChar(x, NoBreakSpace, ' ') == x
  {
    assert '\r' !in x && NoBreakSpace !in x by {
      forall i | 0 <= i < |x| ensures x[i] != '\r' && x[i] != NoBreakSpace {
        assert !IsForeignToKey(x[i]);
      }
    }
    RemoveAbsent(x, '\r');
    ReplaceAbsent(x, NoBreakSpace, ' ');
  }

  /** For a name free of carriage returns and no-break spaces, only trim, lower-case and the prefix act. */
  lemma NormalizeWithoutCr(raw: string)
    requires raw != [] && '\r' !in raw && NoBreakSpace !in raw
    ensures NormalizeCity(Some(raw)) == StripCityOf(ToLower(Trim(raw)))
  {
    RemoveAbsent(raw, '\r');
    ReplaceAbsent(raw, NoBreakSpace, ' ');
  }

  /** A clean name is its own key. */
  lemma CleanNameIsKey(x: string)
    requires IsCleanName(x)
    ensures NormalizeCity(Some(x)) == x
  {
    CleanNameUntouched(x);
    TrimFixed(x);
    LowerFixed(x);
  }

  lemma LowerCityOf(x: string)
    requires IsCleanName(x)
    ensures ToLower("City of " + x) == CityOf + x
  {
    LowerConcat("City of ", x);
    LowerFixed(x);
    LowerCityOfPrefix();
  }

  lemma LowerCityOfPrefix()
    ensures ToLower("City of ") == CityOf
  {
    var r := ToLower("City of ");
    assert forall i :: 0 <= i < 8 ==> r[i] == CityOf[i];
  }

  lemma PrefixedClean(x: string)
    requires '\r' !in x && NoBreakSpace !in x
    ensures '\r' !in "City of " + x && NoBreakSpace !in "City of " + x
  {
    var prefixed := "City of " + x;
    forall i | 0 <= i < |prefixed| ensures prefixed[i] != '\r' && prefixed[i] != NoBreakSpace {
      if i >= 8 {
        assert prefixed[i] == x[i - 8];
        assert x[i - 8] in x;
      }
    }
  }

  /** `City of <name>` has the same key as the clean name. */
  lemma CityOfPrefixDropped(x: string)
    requires IsCleanName(x)
    ensures NormalizeCity(Some("City of " + x)) == x
  {
    PrefixedKey(x);
    LowerCityOf(x);
    StripPrefixed(x);
  }

  /** A prefixed clean name is only lower-cased and stripped of its prefix. */
  lemma PrefixedKey(x: string)
    requires IsCleanName(x)
    ensures NormalizeCity(Some("City of " + x)) == StripCityOf(ToLower("City of " + x))
  {
    var prefixed := "City of " + x;
    CleanNameUntouched(x);
    PrefixedClean(x);
    NormalizeWithoutCr(prefixed);
    PrefixedTrimmed(x);
  }

  /** A clean name behind the capitalised prefix has no whitespace at either end. */
  lemma PrefixedTrimmed(x: string)
    requires IsCleanName(x)
    ensures Trim("City of " + x) == "City of " + x
  {
    var prefixed := "City of " + x;
    assert prefixed[0] == 'C' && prefixed[|prefixed| - 1] == x[|x| - 1];
    TrimFixed(prefixed);
  }

  /** Exactly one leading `city of ` is stripped. */
  lemma StripPrefixed(x: string)
    ensures StripCityOf(CityOf + x) == x
  {
    var lowered := CityOf + x;
    assert lowered[..|CityOf|] == CityOf && lowered[|CityOf|..] == x;
  }

  lemma TrimPadding(x: string)
    requires IsCleanName(x)
    ensures Trim(" " + x + " ") == x
  {
    var padded := " " + x + " ";
    assert padded[0] == ' ' && padded[1..] == x + " ";
    assert TrimStart(x + " ") == x + " " by {
      assert (x + " ")[0] == x[0];
    }
    assert TrimEnd(x + " ") == x by {
      assert (x + " ")[|x|] == ' ' && (x + " ")[..|x|] == x;
      assert TrimEnd(x) == x;
    }
  }

  /** A clean name padded with a space on each side has the same key as the clean name. */
  lemma PaddingDropped(x: string)
    requires IsCleanName(x)
    ensures NormalizeCity(Some(" " + x + " ")) == x
  {
    var padded := " " + x + " ";
    assert '\r' !in padded && NoBreakSpace !in padded by {
      CleanNameUntouched(x);
      forall i | 0 <= i < |padded| ensures padded[i] != '\r' && padded[i] != NoBreakSpace {
        if 1 <= i <= |x| {
          assert padded[i] == x[i - 1];
        }
      }
    }
    NormalizeWithoutCr(padded);
    TrimPadding(x);
    LowerFixed(x);
  }

  /**
   * The spellings the two data sets use for one municipality join: a name
   * whose lower-cased form is clean, written as is, as `City of <name>` or
   * padded with spaces, always gives the lower-cased name as key.
   */
  lemma SpellingsShareKey(y: string)
    requires IsCleanName(ToLower(y))
    ensures NormalizeCity(Some(y)) == ToLower(y)
    ensures NormalizeCity(Some("City of " + y)) == ToLower(y)
    ensures NormalizeCity(Some(" " + y + " ")) == ToLower(y)
  {
    var x := ToLower(y);
    LowerIdempotent(y);
    NormalizeIgnoresCase(y);
    CleanNameIsKey(x);

    NormalizeIgnoresCase("City of " + y);
    NormalizeIgnoresCase("City of " + x);
    LowerConcat("City of ", y);
    LowerConcat("City of ", x);
    CityOfPrefixDropped(x);

    NormalizeIgnoresCase(" " + y + " ");
    NormalizeIgnoresCase(" " + x + " ");
    LowerConcat(" " + y, " ");
    LowerConcat(" ", y);
    LowerConcat(" " + x, " ");
    LowerConcat(" ", x);
    PaddingDropped(x);
  }

  lemma ManilaSpelling()
    ensures ToLower("Manila") == "manila" && IsCleanName("manila")
  {
    var r := ToLower("Manila");
    assert forall i :: 0 <= i < 6 ==> r[i] == "manila"[i];
    assert IsTrimmed("manila");
  }

  lemma PasigSpelling()
    ensures ToLower("Pasig") == "pasig" && IsCleanName("pasig")
  {
    var r := ToLower("Pasig");
    assert forall i :: 0 <= i < 5 ==> r[i] == "pasig"[i];
    assert IsTrimmed("pasig");
  }

  /** `City of Manila` in one file and ` manila ` in the other give the same key. */
  lemma ManilaExample()
    ensures NormalizeCity(Some("City of " + "Manila")) == NormalizeCity(Some(" " + "manila" + " ")) == "manila"
  {
    ManilaSpelling();
    LowerFixed("manila");
    SpellingsShareKey("Manila");
    SpellingsShareKey("manila");
  }
}
