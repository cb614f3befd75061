/** One stored name, shown and accepted as a first and a last name. */
module NameSplit {
  import opened Prelude
  import opened Text

  function FirstWord(s: string): (w: string)
    ensures w <= s && forall i :: 0 <= i < |w| ==> !IsSpace(w[i])
    ensures |w| < |s| ==> IsSpace(s[|w|])
  {
    if s == "" || IsSpace(s[0]) then "" else [s[0]] + FirstWord(s[1..])
  }

  /** `name.split(maxsplit=1)`: the first word, and the rest without leading white space. */
  function SplitOnce(name: string): seq<string> {
    var s := LStrip(name);
    var w := FirstWord(s);
    var rest := LStrip(s[|w|..]);
    if s == "" then [] else if rest == "" then [w] else [w, rest]
  }

  datatype Names = Names(first: string, last: string)

  /** `to_representation` */
  function Represent(name: string): Names {
    var parts := SplitOnce(name);
    Names(if |parts| > 0 then parts[0] else "", if |parts| > 1 then parts[1] else "")
  }

  /** `to_internal_value`: None when neither field is sent and the name is left alone. */
  function Parse(first: Option<string>, last: Option<string>): Option<string> {
    if first.None? && last.None? then None
    else
      var f := if first.Some? then Strip(first.value) else "";
      var l := if last.Some? then Strip(last.value) else "";
      Some(Strip(f + " " + l))
  }

  function ParseBoth(n: Names): string {
    Parse(Some(n.first), Some(n.last)).value
  }

  // ---------------------------------------------------------------- trimmed text

  predicate Trimmed(s: string) {
    s == "" || (!IsSpace(s[0]) && !IsSpace(s[|s| - 1]))
  }

  predicate OneWord(s: string) {
    s != "" && forall i :: 0 <= i < |s| ==> !IsSpace(s[i])
  }

  lemma StripIsTrimmed(s: string)
    ensures Trimmed(Strip(s))
  {
    var l := LStrip(s);
    LStripIsSuffix(s);
    RStripIsPrefix(l);
    assert Strip(s) != "" ==> Strip(s)[0] == l[0];
  }

  lemma TrimmedIsStripped(s: string)
    requires Trimmed(s)
    ensures LStrip(s) == s && RStrip(s) == s && Strip(s) == s
  {
  }

  /** The joined name has no stray blanks: an empty part leaves the other one. */
  lemma JoinedName(f: string, l: string)
    requires Trimmed(f) && Trimmed(l)
    ensures Strip(f + " " + l) == if f == "" then l else if l == "" then f else f + " " + l
  {
    var s := f + " " + l;
    TrimmedIsStripped(l);
    TrimmedIsStripped(f);
    if f == "" {
      assert s[1..] == l && IsSpace(s[0]);
      assert LStrip(s) == LStrip(l);
    } else if l == "" {
      assert s[..|s| - 1] == f && LStrip(s) == s;
      assert RStrip(s) == RStrip(f);
    } else {
      assert s[|s| - 1] == l[|l| - 1];
      TrimmedIsStripped(s);
    }
  }

  lemma {:induction false} FirstWordIsLongest(w: string, rest: string)
    requires forall i :: 0 <= i < |w| ==> !IsSpace(w[i])
    requires rest == "" || IsSpace(rest[0])
    ensures FirstWord(w + rest) == w
  {
    if w == "" {
      assert w + rest == rest;
    } else {
      FirstWordIsLongest(w[1..], rest);
      assert (w + rest)[1..] == w[1..] + rest;
    }
  }

  /** A first name of one word, and any trimmed last name, are shown as they were joined. */
  lemma JoinedNamesAreShown(f: string, l: string)
    requires OneWord(f) && Trimmed(l)
    ensures Represent(Strip(f + " " + l)) == Names(f, l)
  {
    JoinedName(f, l);
    TrimmedIsStripped(f);
    TrimmedIsStripped(l);
    if l == "" {
      FirstWordIsLongest(f, "");
      assert f + "" == f;
      assert f[|f|..] == "";
    } else {
      var s := f + " " + l;
      assert s[|s| - 1] == l[|l| - 1];
      TrimmedIsStripped(s);
      FirstWordIsLongest(f, " " + l);
      assert (" " + l)[1..] == l;
      assert LStrip(" " + l) == LStrip(l);
      hide LStrip, RStrip, Strip, FirstWord;
      assert s == f + (" " + l);
      assert s[|f|..] == " " + l;
    }
  }

  /** Parsing and showing again gives back the trimmed names exactly when the first one is one word,
      or both are empty. */
  lemma NamesAreRecoveredIff(first: string, last: string)
    ensures Represent(ParseBoth(Names(first, last))) == Names(Strip(first), Strip(last))
            <==> OneWord(Strip(first)) || (Strip(first) == "" && Strip(last) == "")
  {
    var f, l := Strip(first), Strip(last);
    StripIsTrimmed(first);
    StripIsTrimmed(last);
    if OneWord(f) {
      JoinedNamesAreShown(f, l);
    } else {
      JoinedName(f, l);
      var name := Strip(f + " " + l);
      if name != "" {
        assert Trimmed(name);
        TrimmedIsStripped(name);
        ShownFirstIsOneWord(name);
      }
    }
  }

  lemma ShownFirstIsOneWord(name: string)
    ensures Represent(name).first == "" || OneWord(Represent(name).first)
    ensures Represent(name).first == "" <==> IsBlank(name)
    ensures IsBlank(name) ==> Represent(name).last == ""
  {
    LStripIsSuffix(name);
  }

  /** Showing a stored name and saving it unchanged settles after one round: the first name stays,
      the last name loses trailing blanks, and a second round changes nothing. */
  lemma RoundTripIsIdempotent(name: string)
    ensures var once := ParseBoth(Represent(name));
            && Represent(once) == Names(Represent(name).first, Strip(Represent(name).last))
            && ParseBoth(Represent(once)) == once
  {
    var shown := Represent(name);
    var once := ParseBoth(shown);
    ShownFirstIsOneWord(name);
    StripIsTrimmed(shown.last);
    TrimmedIsStripped(Strip(shown.last));
    TrimmedIsStripped(shown.first);
    if shown.first == "" {
      JoinedName("", "");
    } else {
      JoinedNamesAreShown(shown.first, Strip(shown.last));
    }
  }

  /** With one field only, the name becomes that field, trimmed; with none it is left alone. */
  lemma OneFieldIsTheName(text: string)
    ensures Parse(Some(text), None) == Some(Strip(text))
    ensures Parse(None, Some(text)) == Some(Strip(text))
    ensures Parse(None, None) == None
  {
    StripIsTrimmed(text);
    JoinedName(Strip(text), "");
    JoinedName("", Strip(text));
  }
}
