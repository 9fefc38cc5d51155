/** The practice selection: the list of flag codes the player has ticked,
    and the new-list expression that toggleFlag hands to its state setter. */
module Selection {

  /** No element occurs twice in s. */
  predicate NoDup<T(==)>(s: seq<T>)
  {
    forall i, j :: 0 <= i < j < |s| ==> s[i] != s[j]
  }

  /** `selected.filter(c => c !== code)`: every occurrence of code dropped,
      the other codes kept in their order. */
  function Without(selected: seq<string>, code: string): (r: seq<string>)
    ensures forall c :: c in r <==> c in selected && c != code
    ensures |r| <= |selected|
    ensures code !in selected ==> r == selected
  {
    if selected == [] then []
    else if selected[0] == code then Without(selected[1..], code)
    else [selected[0]] + Without(selected[1..], code)
  }

  /** Removing a code from a list without duplicates leaves a list without
      duplicates. */
  lemma {:induction false} WithoutKeepsDistinct(selected: seq<string>, code: string)
    requires NoDup(selected)
    ensures NoDup(Without(selected, code))
  {
    if selected != [] {
      var rest := selected[1..];
      assert NoDup(rest) by {
        forall i, j | 0 <= i < j < |rest| ensures rest[i] != rest[j] {
          assert rest[i] == selected[i + 1] && rest[j] == selected[j + 1];
        }
      }
      WithoutKeepsDistinct(rest, code);
      if selected[0] != code {
        var tail := Without(rest, code);
        assert selected[0] !in rest;
        assert selected[0] !in tail;
        var r := [selected[0]] + tail;
        forall i, j | 0 <= i < j < |r| ensures r[i] != r[j] {
          if i == 0 {
            assert r[j] == tail[j - 1];
          } else {
            assert r[i] == tail[i - 1] && r[j] == tail[j - 1];
          }
        }
      }
    }
  }

  /** The list toggleFlag installs:
      `prev.includes(code) ? prev.filter(c => c !== code) : [...prev, code]`.
      Afterwards code is selected exactly when it was not selected before,
      and every other code keeps its membership. */
  function Toggle(selected: seq<string>, code: string): (r: seq<string>)
    ensures code in r <==> code !in selected
    ensures forall c :: c != code ==> (c in r <==> c in selected)
  {
    if code in selected then Without(selected, code) else selected + [code]
  }

  /** Toggling never introduces a duplicate code into the selection. */
  lemma ToggleKeepsDistinct(selected: seq<string>, code: string)
    requires NoDup(selected)
    ensures NoDup(Toggle(selected, code))
  {
    if code in selected {
      WithoutKeepsDistinct(selected, code);
    } else {
      var r := selected + [code];
      forall i, j | 0 <= i < j < |r| ensures r[i] != r[j] {
        if j == |selected| {
          assert r[i] == selected[i];
        } else {
          assert r[i] == selected[i] && r[j] == selected[j];
        }
      }
    }
  }

  /** Toggling the same code twice restores the selection as a set, and
      restores the very same list when the code was not selected at first. */
  lemma ToggleTwice(selected: seq<string>, code: string)
    ensures forall c :: c in Toggle(Toggle(selected, code), code) <==> c in selected
    ensures code !in selected ==> Toggle(Toggle(selected, code), code) == selected
  {
    if code !in selected {
      var once := selected + [code];
      assert code in once;
      WithoutAppended(selected, code);
    }
  }

  /** Removing a code that was appended to a list not holding it gives the
      list back. */
  lemma {:induction false} WithoutAppended(selected: seq<string>, code: string)
    requires code !in selected
    ensures Without(selected + [code], code) == selected
  {
    if selected != [] {
      assert (selected + [code])[1..] == selected[1..] + [code];
      WithoutAppended(selected[1..], code);
      assert [selected[0]] + selected[1..] == selected;
    }
  }
}
