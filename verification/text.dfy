/** cartman/text.py: resolving a typed value against a list of options
    (`fuzzy_find`) and parsing command-line identifiers (`validate_id`). */
module Text {
  import opened Wrappers
  import opened Errors
  import opened Strings
  import opened Seqs
  import OrderedMap

  /** The verdict of `difflib.get_close_matches` on one pair: whether the
      similarity ratio of `word` and `possibility` reaches the cutoff. The
      ratio itself is computed by the Python library and is not modelled;
      every operation below takes the verdict as a parameter. */
  type Similar = (string, string) -> bool

  /** The `n` argument of `get_close_matches`, left at its default. */
  const MaxCloseMatches: nat := 3

  /** The last option whose lower-case form is `k`: the value a dictionary
      comprehension `{opt.lower(): opt for opt in options}` keeps for `k`. */
  function LastWithLower(options: seq<string>, k: string): (r: Option<string>)
    ensures r.Some? ==> r.value in options && Lower(r.value) == k
    ensures r.None? <==> forall o :: o in options ==> Lower(o) != k
    decreases |options|
  {
    if |options| == 0 then None
    else if Lower(options[|options| - 1]) == k then Some(options[|options| - 1])
    else
      assert options == options[..|options| - 1] + [options[|options| - 1]];
      LastWithLower(options[..|options| - 1], k)
  }

  /** `{opt.lower(): opt for opt in options}`: each lower-case form maps back
      to the last option that has it. */
  function LowerIndex(options: seq<string>): (d: seq<(string, string)>)
    ensures OrderedMap.DistinctKeys(d)
    ensures forall k :: OrderedMap.Get(d, k) == LastWithLower(options, k)
    decreases |options|
  {
    if |options| == 0 then []
    else
      var prev := LowerIndex(options[..|options| - 1]);
      var o := options[|options| - 1];
      OrderedMap.PutDistinct(prev, Lower(o), o);
      OrderedMap.Put(prev, Lower(o), o)
  }

  /** Every key of the index is the lower-case form of some option. */
  lemma LowerIndexKeys(options: seq<string>, k: string)
    ensures k in OrderedMap.Keys(LowerIndex(options)) <==> exists o :: o in options && Lower(o) == k
  {
    OrderedMap.GetFound(LowerIndex(options), k);
  }

  predicate IsWordChar(c: char) {
    'a' <= c <= 'z' || 'A' <= c <= 'Z' || '0' <= c <= '9' || c == '_'
  }

  /** Position `p` of `s` holds a word character. */
  predicate WordAt(s: string, p: int) {
    0 <= p < |s| && IsWordChar(s[p])
  }

  /** A regular expression `\b` holds between positions `p - 1` and `p`. */
  predicate Boundary(s: string, p: int) {
    WordAt(s, p - 1) != WordAt(s, p)
  }

  /** `value` occurs in `text` at position `i` as a whole word that the
      leading `.*` can reach (`.` does not match a line break). */
  predicate WordMatchAt(value: string, text: string, i: nat) {
    && OccursAt(text, value, i)
    && Boundary(text, i)
    && Boundary(text, i + |value|)
    && '\n' !in text[..i]
  }

  /** `re.match(r".*\b%s\b.*" % value, text)` succeeds, with `value` read as
      literal text. */
  predicate WordMatch(value: string, text: string) {
    exists i :: 0 <= i <= |text| && WordMatchAt(value, text, i)
  }

  /** `difflib.get_close_matches(value, keys)`: the keys judged similar, at
      most `MaxCloseMatches` of them. */
  function CloseMatches(similar: Similar, value: string, keys: seq<string>): (r: seq<string>)
    ensures |r| <= MaxCloseMatches && |r| <= |keys|
    ensures forall x :: x in r ==> x in keys && similar(value, x)
    ensures Distinct(keys) ==> Distinct(r)
    ensures |r| == 0 <==> forall x :: x in keys ==> !similar(value, x)
    ensures |r| == 1 <==> |Filter(x => similar(value, x), keys)| == 1
  {
    var all := Filter(x => similar(value, x), keys);
    assert |all| > 0 ==> all[0] in all;
    var n := if |all| < MaxCloseMatches then |all| else MaxCloseMatches;
    assert forall x :: x in all[..n] ==> x in all;
    all[..n]
  }

  /** The keys the word-boundary scan appends to `matches`. */
  function WordMatches(value: string, keys: seq<string>): (r: seq<string>)
    ensures forall x :: x in r <==> x in keys && WordMatch(value, x)
    ensures |r| <= |keys|
    ensures Distinct(keys) ==> Distinct(r)
  {
    Filter(x => WordMatch(value, x), keys)
  }

  /** The matches `fuzzy_find` counts: the close matches, or, only when there
      are none, the word-boundary matches. */
  function Candidates(similar: Similar, value: string, keys: seq<string>): (r: seq<string>)
    ensures forall x :: x in r ==> x in keys
    ensures (exists x :: x in keys && similar(value, x)) ==> forall x :: x in r ==> similar(value, x)
    ensures (forall x :: x in keys ==> !similar(value, x)) ==> forall x :: x in r <==> x in keys && WordMatch(value, x)
  {
    var close := CloseMatches(similar, value, keys);
    if |close| == 0 then WordMatches(value, keys) else close
  }

  /** `fuzzy_find(value, options)`: the one option the lower-cased value
      resolves to, or `None` when no option or several options match. */
  function FuzzyFind(similar: Similar, value: string, options: seq<string>): (r: Option<string>)
    ensures |options| == 0 ==> r == None
    ensures r.Some? ==> r.value in options
    ensures r.Some? ==> r == LastWithLower(options, Lower(r.value))
  {
    var v := Lower(value);
    var d := LowerIndex(options);
    var m := Candidates(similar, v, OrderedMap.Keys(d));
    if |m| == 1 then
      OrderedMap.GetFound(d, m[0]);
      OrderedMap.Get(d, m[0])
    else None
  }

  /** Some option's lower-case form is similar to `v`. */
  predicate AnySimilar(similar: Similar, v: string, options: seq<string>) {
    exists o :: o in options && similar(v, Lower(o))
  }

  /** Option `o` survives the stage that decides: the similarity test when
      any option passes it, otherwise the word-boundary scan. */
  predicate IsCandidate(similar: Similar, v: string, options: seq<string>, o: string) {
    if AnySimilar(similar, v, options) then similar(v, Lower(o)) else WordMatch(v, Lower(o))
  }

  /** The keys `Candidates` sees are distinct, one per lower-case form at
      most. */
  lemma CandidatesDistinct(similar: Similar, v: string, options: seq<string>)
    ensures Distinct(Candidates(similar, v, OrderedMap.Keys(LowerIndex(options))))
    ensures |Candidates(similar, v, OrderedMap.Keys(LowerIndex(options)))| <= |options|
  {
    var keys := OrderedMap.Keys(LowerIndex(options));
    assert Distinct(keys);
    KeysBound(options);
  }

  /** Every key `Candidates` keeps is the lower-case form of an option that
      survives the deciding stage. */
  lemma CandidatesAreSurvivors(similar: Similar, v: string, options: seq<string>)
    ensures forall x :: x in Candidates(similar, v, OrderedMap.Keys(LowerIndex(options))) ==>
              exists o :: o in options && Lower(o) == x && IsCandidate(similar, v, options, o)
  {
    var keys := OrderedMap.Keys(LowerIndex(options));
    forall x ensures x in keys <==> exists o :: o in options && Lower(o) == x {
      LowerIndexKeys(options, x);
    }
    var close := CloseMatches(similar, v, keys);
    if AnySimilar(similar, v, options) {
      var o :| o in options && similar(v, Lower(o));
      assert Lower(o) in keys;
      assert |close| > 0;
    }
  }

  /** Every surviving option's lower-case form is kept: there is at least one
      key, and a single key is that form. */
  lemma SurvivorsAreCandidates(similar: Similar, v: string, options: seq<string>, o: string)
    requires o in options && IsCandidate(similar, v, options, o)
    ensures var m := Candidates(similar, v, OrderedMap.Keys(LowerIndex(options)));
            |m| > 0 && (|m| == 1 ==> Lower(o) == m[0])
  {
    var keys := OrderedMap.Keys(LowerIndex(options));
    LowerIndexKeys(options, Lower(o));
    var close := CloseMatches(similar, v, keys);
    var all := Filter(x => similar(v, x), keys);
    if AnySimilar(similar, v, options) {
      var o1 :| o1 in options && similar(v, Lower(o1));
      LowerIndexKeys(options, Lower(o1));
      assert |close| > 0;
      assert Lower(o) in all;
      assert all[0] in all;
    } else {
      forall x | x in keys ensures !similar(v, x) {
        LowerIndexKeys(options, x);
      }
      assert |close| == 0;
    }
  }

  /** The index has no more keys than there are options. */
  lemma {:induction false} KeysBound(options: seq<string>)
    ensures |OrderedMap.Keys(LowerIndex(options))| <= |options|
    decreases |options|
  {
    if |options| > 0 {
      var prev := LowerIndex(options[..|options| - 1]);
      var o := options[|options| - 1];
      KeysBound(options[..|options| - 1]);
      OrderedMap.PutKeys(prev, Lower(o), o);
    }
  }

  /** `fuzzy_find` returns an option exactly when the options that survive
      the deciding stage all share one lower-case form; the option returned
      is one of them. With no survivor, or survivors of two different
      lower-case forms, it returns `None`. */
  lemma {:induction false} FuzzyFindUnique(similar: Similar, value: string, options: seq<string>)
    ensures var v := Lower(value);
      var r := FuzzyFind(similar, value, options);
      && (r.Some? ==>
            && IsCandidate(similar, v, options, r.value)
            && forall o :: o in options && IsCandidate(similar, v, options, o) ==> Lower(o) == Lower(r.value))
      && (r.None? ==>
            || (forall o :: o in options ==> !IsCandidate(similar, v, options, o))
            || exists o1, o2 :: && o1 in options && o2 in options
                               && IsCandidate(similar, v, options, o1) && IsCandidate(similar, v, options, o2)
                               && Lower(o1) != Lower(o2))
  {
    var v := Lower(value);
    var d := LowerIndex(options);
    var m := Candidates(similar, v, OrderedMap.Keys(d));
    CandidatesDistinct(similar, v, options);
    CandidatesAreSurvivors(similar, v, options);
    forall o | o in options && IsCandidate(similar, v, options, o)
      ensures |m| > 0 && (|m| == 1 ==> Lower(o) == m[0])
    {
      SurvivorsAreCandidates(similar, v, options, o);
    }
    var r := FuzzyFind(similar, value, options);
    if |m| == 1 {
      assert r == LastWithLower(options, m[0]);
      assert m[0] in m;
      var o :| o in options && Lower(o) == m[0] && IsCandidate(similar, v, options, o);
      assert Lower(r.value) == Lower(o);
    } else if |m| >= 2 {
      assert m[0] in m && m[1] in m;
      var o1 :| o1 in options && Lower(o1) == m[0] && IsCandidate(similar, v, options, o1);
      var o2 :| o2 in options && Lower(o2) == m[1] && IsCandidate(similar, v, options, o2);
    }
  }

  /** Matching ignores case: the value is lower-cased before anything is
      compared, so lower-casing it beforehand changes nothing. */
  lemma FuzzyFindIgnoresCase(similar: Similar, value: string, options: seq<string>)
    ensures FuzzyFind(similar, value, options) == FuzzyFind(similar, Lower(value), options)
  {
    LowerIdempotent(value);
  }

  /** The word-boundary scan is consulted only when no option is similar:
      if some option passes the similarity test, any result passes it too. */
  lemma FuzzyFindPrefersSimilar(similar: Similar, value: string, options: seq<string>)
    requires AnySimilar(similar, Lower(value), options)
    ensures FuzzyFind(similar, value, options).Some? ==>
              similar(Lower(value), Lower(FuzzyFind(similar, value, options).value))
  {
    FuzzyFindUnique(similar, value, options);
  }

  /** `fuzzy_find` exactly as written: the fallback scan calls `re.match`,
      but the module never imports `re`, so reaching the scan with at least
      one option raises `NameError`. */
  function FuzzyFindAsWritten(similar: Similar, value: string, options: seq<string>): (r: Result<Option<string>, Error>)
    ensures r.Failure? ==> r.error == NameError("re")
  {
    var v := Lower(value);
    var d := LowerIndex(options);
    var keys := OrderedMap.Keys(d);
    var close := CloseMatches(similar, v, keys);
    if |close| == 0 && |keys| > 0 then Failure(NameError("re"))
    else if |close| == 1 then Success(OrderedMap.Get(d, close[0]))
    else Success(None)
  }

  /** As written, `fuzzy_find` raises exactly when options exist and none is
      similar; in every other case it agrees with the corrected version. */
  lemma {:induction false} AsWrittenRaisesOnFallback(similar: Similar, value: string, options: seq<string>)
    ensures (FuzzyFindAsWritten(similar, value, options).Failure?
             <==> |options| > 0 && !AnySimilar(similar, Lower(value), options))
    ensures FuzzyFindAsWritten(similar, value, options).Success? ==>
              FuzzyFindAsWritten(similar, value, options).value == FuzzyFind(similar, value, options)
  {
    var v := Lower(value);
    var d := LowerIndex(options);
    var keys := OrderedMap.Keys(d);
    if |options| > 0 {
      LowerIndexKeys(options, Lower(options[0]));
      assert |keys| > 0;
    } else {
      assert keys == [];
    }
    if AnySimilar(similar, v, options) {
      var o :| o in options && similar(v, Lower(o));
      LowerIndexKeys(options, Lower(o));
    } else {
      forall x | x in keys ensures !similar(v, x) {
        LowerIndexKeys(options, x);
      }
    }
  }

  /** When `o` is the only option that survives the deciding stage and no
      other option shares its lower-case form, `o` is the result. */
  lemma OnlyCandidate(similar: Similar, value: string, options: seq<string>, o: string)
    requires o in options && IsCandidate(similar, Lower(value), options, o)
    requires forall o' :: o' in options && IsCandidate(similar, Lower(value), options, o') ==> o' == o
    requires forall o' :: o' in options && Lower(o') == Lower(o) ==> o' == o
    ensures FuzzyFind(similar, value, options) == Some(o)
  {
    SingleSurvivor(similar, value, options, o);
    var r := LastWithLower(options, Lower(o));
    assert r.Some?;
  }

  /** A string without upper-case letters is its own lower-case form. */
  lemma LowerUnchanged(s: string)
    requires forall i :: 0 <= i < |s| ==> !IsUpper(s[i])
    ensures Lower(s) == s
  {
  }

  /** The test `fuzzy_find("meh", ["bad"])`: the similarity ratio of "meh"
      and "bad" is 0, so the scan is reached and the code as written raises
      where `None` is expected. */
  lemma BadOptionRaises(similar: Similar, value: string, options: seq<string>)
    requires value == "meh" && options == ["bad"]
    requires !similar("meh", "bad")
    ensures FuzzyFindAsWritten(similar, value, options) == Failure(NameError("re"))
    ensures FuzzyFind(similar, value, options) == None
  {
    LowerUnchanged(value);
    LowerUnchanged(options[0]);
    assert !AnySimilar(similar, value, options);
    AsWrittenRaisesOnFallback(similar, value, options);
    assert !WordMatch(value, options[0]) by {
      forall i | 0 <= i <= 3 ensures !WordMatchAt(value, options[0], i) {
        if i == 0 { assert options[0][0..3][0] == 'b'; }
      }
    }
    FuzzyFindUnique(similar, value, options);
  }

  /** "meh" is a whole word at the start of "meh stuff". */
  lemma MehStuffWordMatch(value: string, text: string)
    requires value == "meh" && text == "meh stuff"
    ensures WordMatch(value, text)
  {
    assert text[0..3] == value;
    assert WordMatchAt(value, text, 0);
  }

  /** "meh" does not occur in "mih stuff" at all. */
  lemma MihStuffNoWordMatch(value: string, text: string)
    requires value == "meh" && text == "mih stuff"
    ensures !WordMatch(value, text)
  {
    forall i | 0 <= i <= |text| ensures !WordMatchAt(value, text, i) {
      if i + 3 <= |text| {
        var w := text[i..i + 3];
        assert w[0] == text[i] && w[1] == text[i + 1];
      }
    }
  }

  /** When every surviving option has the lower-case form of `o`, the
      result is the last option with that form. */
  lemma SingleSurvivor(similar: Similar, value: string, options: seq<string>, o: string)
    requires o in options && IsCandidate(similar, Lower(value), options, o)
    requires forall o' :: o' in options && IsCandidate(similar, Lower(value), options, o') ==> Lower(o') == Lower(o)
    ensures FuzzyFind(similar, value, options) == LastWithLower(options, Lower(o))
  {
    FuzzyFindUnique(similar, value, options);
  }

  /** When no option is similar and exactly one option holds the value as a
      whole word, the corrected function finds that option while the code
      as written raises. */
  lemma OnlyWordMatch(similar: Similar, value: string, options: seq<string>, o: string)
    requires !AnySimilar(similar, Lower(value), options)
    requires o in options && WordMatch(Lower(value), Lower(o))
    requires forall o' :: o' in options && WordMatch(Lower(value), Lower(o')) ==> o' == o
    requires forall o' :: o' in options && Lower(o') == Lower(o) ==> o' == o
    ensures FuzzyFind(similar, value, options) == Some(o)
    ensures FuzzyFindAsWritten(similar, value, options) == Failure(NameError("re"))
  {
    AsWrittenRaisesOnFallback(similar, value, options);
    OnlyCandidate(similar, value, options, o);
  }

  /** Neither "meh stuff" nor "mih stuff" is similar to "meh". */
  lemma MehStuffNotSimilar(similar: Similar, value: string, options: seq<string>)
    requires value == "meh" && options == ["meh stuff", "mih stuff"]
    requires !similar("meh", "meh stuff") && !similar("meh", "mih stuff")
    ensures !AnySimilar(similar, Lower(value), options)
  {
    var a, b := options[0], options[1];
    LowerUnchanged(value);
    LowerUnchanged(a);
    LowerUnchanged(b);
    assert forall o :: o in options ==> o == a || o == b;
  }

  /** Of "meh stuff" and "mih stuff", only the first holds "meh" as a word. */
  lemma MehStuffOnlyWordMatch(value: string, options: seq<string>)
    requires value == "meh" && options == ["meh stuff", "mih stuff"]
    ensures WordMatch(Lower(value), Lower(options[0]))
    ensures forall o' :: o' in options && WordMatch(Lower(value), Lower(o')) ==> o' == options[0]
  {
    var a, b := options[0], options[1];
    LowerUnchanged(value);
    LowerUnchanged(a);
    LowerUnchanged(b);
    assert forall o :: o in options ==> o == a || o == b;
    MehStuffWordMatch(value, a);
    MihStuffNoWordMatch(value, b);
  }

  /** "meh stuff" and "mih stuff" have different lower-case forms. */
  lemma MehStuffDistinctForms(options: seq<string>)
    requires options == ["meh stuff", "mih stuff"]
    ensures forall o' :: o' in options && Lower(o') == Lower(options[0]) ==> o' == options[0]
  {
    var a, b := options[0], options[1];
    LowerUnchanged(a);
    LowerUnchanged(b);
    assert forall o :: o in options ==> o == a || o == b;
    assert a[1] != b[1];
  }

  /** The test `fuzzy_find("meh", ["meh stuff", "mih stuff"])`: neither
      option reaches the similarity cutoff (ratios 0.5 and 0.33), so only
      the word-boundary scan can find "meh stuff"; as written it raises. */
  lemma WordMatchFallback(similar: Similar, value: string, options: seq<string>)
    requires value == "meh" && options == ["meh stuff", "mih stuff"]
    requires !similar("meh", "meh stuff") && !similar("meh", "mih stuff")
    ensures FuzzyFind(similar, value, options) == Some("meh stuff")
    ensures FuzzyFindAsWritten(similar, value, options) == Failure(NameError("re"))
  {
    MehStuffNotSimilar(similar, value, options);
    MehStuffOnlyWordMatch(value, options);
    MehStuffDistinctForms(options);
    OnlyWordMatch(similar, value, options, options[0]);
  }

  /** The test `fuzzy_find("meh", ["meh"])` is "meh": identical strings have
      ratio 1. */
  lemma SameOption(similar: Similar, value: string, options: seq<string>)
    requires value == "meh" && options == ["meh"]
    requires similar("meh", "meh")
    ensures FuzzyFind(similar, value, options) == Some("meh")
  {
    LowerUnchanged(value);
    OnlyCandidate(similar, value, options, options[0]);
  }

  /** The test `fuzzy_find("meh", ["meg"])` is "meg": their ratio is 0.67. */
  lemma OneLetterDifference(similar: Similar, value: string, options: seq<string>)
    requires value == "meh" && options == ["meg"]
    requires similar("meh", "meg")
    ensures FuzzyFind(similar, value, options) == Some("meg")
  {
    LowerUnchanged(value);
    LowerUnchanged(options[0]);
    OnlyCandidate(similar, value, options, options[0]);
  }

  /** The test `fuzzy_find("meh", ["megl", "mehl"])` is "mehl": only "mehl"
      reaches the cutoff (ratios 0.57 and 0.86). */
  lemma OneOfTwoSimilar(similar: Similar, value: string, options: seq<string>)
    requires value == "meh" && options == ["megl", "mehl"]
    requires !similar("meh", "megl") && similar("meh", "mehl")
    ensures FuzzyFind(similar, value, options) == Some("mehl")
  {
    LowerUnchanged(value);
    LowerUnchanged(options[0]);
    LowerUnchanged(options[1]);
    assert AnySimilar(similar, value, options);
    assert options[0][2] != options[1][2];
    OnlyCandidate(similar, value, options, options[1]);
  }

  /** The message `validate_id` raises with. */
  const InvalidIdMessage := "invalid identifier (should be an int)"

  /** `validate_id(raw_value)` for a string: its integer value, or
      `InvalidParameter` when `int()` rejects it. */
  function ValidateId(raw: string): (r: Result<int, Error>)
    ensures r.Success? <==> ParseInt(raw).Some?
    ensures r.Success? ==> ParseInt(raw) == Some(r.value)
    ensures r.Failure? ==> r.error == InvalidParameter(InvalidIdMessage)
  {
    match ParseInt(raw)
    case Some(n) => Success(n)
    case None => Failure(InvalidParameter(InvalidIdMessage))
  }

  /** Every integer, written in decimal, is accepted as an identifier and
      read back unchanged. */
  lemma ValidateIdRoundTrip(n: int)
    ensures ValidateId(IntToString(n)) == Success(n)
  {
    ParseIntRoundTrip(n);
  }

  /** The cases the tests check: "12" is 12; "qwe" and "1.2" are rejected. */
  lemma ValidateIdExamples()
    ensures ValidateId("12") == Success(12)
    ensures ValidateId("qwe") == Failure(InvalidParameter(InvalidIdMessage))
    ensures ValidateId("1.2") == Failure(InvalidParameter(InvalidIdMessage))
  {
    assert Strip("12") == "12";
    assert "12"[..1] == "1";
    assert DigitsValue("1") == 1;
    assert DigitsValue("12") == 12;
    assert Strip("qwe") == "qwe";
    assert Strip("1.2") == "1.2";
    assert "12"[..1] == "1";
    assert !IsDigit('.');
  }

  /** `int()` also skips whitespace around the sign and the digits, so
      " 12 " is 12 and "- 1" is -1. */
  lemma ValidateIdSpacing(padded: string, spacedSign: string)
    requires padded == " 12 " && spacedSign == "- 1"
    ensures ValidateId(padded) == Success(12)
    ensures ValidateId(spacedSign) == Success(-1)
  {
    assert padded[1..] == "12 ";
    assert StripLeft(padded) == "12 ";
    assert "12 "[..2] == "12";
    assert StripRight("12 ") == "12";
    assert "12"[..1] == "1";
    assert DigitsValue("12") == 12;
    assert Strip(spacedSign) == spacedSign;
    assert spacedSign[1..] == " 1";
    assert StripLeft(" 1") == "1";
    assert DigitsValue("1") == 1;
  }
}
