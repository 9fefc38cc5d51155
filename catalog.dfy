/** The fixed catalog of flags and the round derived from the selection. */
module Catalog {
  import opened Selection

  /** One quiz entry: the flag's code and the country name that answers it. */
  datatype Flag = Flag(code: string, country: string)

  /** `allFlags`, in the order the source lists them. */
  const AllFlags: seq<Flag> := [
    Flag("fr", "France"),
    Flag("de", "Germany"),
    Flag("bt", "Bhutan"),
    Flag("sz", "Eswatini")
  ]

  /** The codes of a list of flags, in order. */
  function Codes(flags: seq<Flag>): seq<string>
  {
    seq(|flags|, i requires 0 <= i < |flags| => flags[i].code)
  }

  /** The codes of the catalog are pairwise distinct. */
  lemma AllFlagsCodesDistinct()
    ensures NoDup(Codes(AllFlags))
  {
  }

  /** r can be obtained from s by deleting elements (order kept). */
  predicate IsSubsequence(r: seq<Flag>, s: seq<Flag>)
  {
    if r == [] then true
    else if s == [] then false
    else if r[0] == s[0] then IsSubsequence(r[1..], s[1..])
    else IsSubsequence(r, s[1..])
  }

  /** `allFlags.filter(flag => selectedFlags.includes(flag.code))`: exactly
      the entries whose code is selected, in the order of flags. */
  function SelectedFlagObjects(flags: seq<Flag>, selected: seq<string>): seq<Flag>
  {
    if flags == [] then []
    else if flags[0].code in selected then [flags[0]] + SelectedFlagObjects(flags[1..], selected)
    else SelectedFlagObjects(flags[1..], selected)
  }

  /** The round holds exactly the entries of flags whose code is selected,
      in the order of flags, and is never longer than flags. */
  lemma {:induction false} SelectedFlagObjectsSpec(flags: seq<Flag>, selected: seq<string>)
    ensures forall f :: f in SelectedFlagObjects(flags, selected) <==> f in flags && f.code in selected
    ensures IsSubsequence(SelectedFlagObjects(flags, selected), flags)
    ensures |SelectedFlagObjects(flags, selected)| <= |flags|
  {
    if flags != [] {
      SelectedFlagObjectsSpec(flags[1..], selected);
      assert forall f :: f in flags <==> f == flags[0] || f in flags[1..] by {
        assert flags == [flags[0]] + flags[1..];
      }
    }
  }

  /** The selected catalog codes, as a set. */
  function SelectedCodes(flags: seq<Flag>, selected: seq<string>): set<string>
  {
    set c | c in Codes(flags) && c in selected
  }

  /** When the codes of flags are distinct, the round has one entry per
      distinct selected code that occurs in flags. */
  lemma {:induction false} RoundLength(flags: seq<Flag>, selected: seq<string>)
    requires NoDup(Codes(flags))
    ensures |SelectedFlagObjects(flags, selected)| == |SelectedCodes(flags, selected)|
  {
    if flags != [] {
      var f, rest := flags[0], flags[1..];
      var cs := Codes(flags);
      assert cs[1..] == Codes(rest);
      assert NoDup(Codes(rest)) by {
        var rs := Codes(rest);
        forall i, j | 0 <= i < j < |rs| ensures rs[i] != rs[j] {
          assert rs[i] == cs[i + 1] && rs[j] == cs[j + 1];
        }
      }
      assert f.code !in Codes(rest) by {
        forall k | 0 <= k < |rest| ensures Codes(rest)[k] != f.code {
          assert Codes(rest)[k] == cs[k + 1] && cs[0] == f.code;
        }
      }
      RoundLength(rest, selected);
      assert forall c :: c in cs <==> c == f.code || c in Codes(rest) by {
        assert cs == [f.code] + Codes(rest);
      }
      if f.code in selected {
        assert SelectedCodes(flags, selected) == SelectedCodes(rest, selected) + {f.code};
      } else {
        assert SelectedCodes(flags, selected) == SelectedCodes(rest, selected);
      }
    }
  }

  /** A list without duplicates has as many distinct elements as entries. */
  lemma {:induction false} DistinctCount(s: seq<string>)
    requires NoDup(s)
    ensures |set c | c in s| == |s|
  {
    if s != [] {
      var rest := s[1..];
      assert NoDup(rest) by {
        forall i, j | 0 <= i < j < |rest| ensures rest[i] != rest[j] {
          assert rest[i] == s[i + 1] && rest[j] == s[j + 1];
        }
      }
      DistinctCount(rest);
      assert s[0] !in rest;
      assert s == [s[0]] + rest;
      assert (set c | c in s) == (set c | c in rest) + {s[0]};
    }
  }

  /** A selection of distinct codes of a catalog whose codes are distinct
      yields a round with one entry per selected code: a non-empty
      selection gives a non-empty round. */
  lemma RoundMatchesSelection(flags: seq<Flag>, selected: seq<string>)
    requires NoDup(Codes(flags))
    requires NoDup(selected)
    requires forall c :: c in selected ==> c in Codes(flags)
    ensures |SelectedFlagObjects(flags, selected)| == |selected|
  {
    RoundLength(flags, selected);
    DistinctCount(selected);
    assert SelectedCodes(flags, selected) == set c | c in selected;
  }

  /** Ticking Germany and then France gives the round France, Germany: the
      round follows the catalog's order, not the order of the clicks. */
  lemma CatalogOrderRound()
    ensures SelectedFlagObjects(AllFlags, ["de", "fr"]) == [Flag("fr", "France"), Flag("de", "Germany")]
  {
  }
}
