/** The administrator's employee directory: a case-insensitive search over the
    full name and the employee id, one card per match with its initials
    placeholder and penalty total, and an empty-state notice. */
module ActiveDirectory {
  import opened Wrappers
  import opened Text
  import opened Records

  /** The search test: the lower-cased full name, or else the lower-cased employee id, contains the
      lower-cased term; an absent field never matches. */
  predicate Matches(e: Profile, term: string) {
    (e.fullName.Some? && Includes(Lower(e.fullName.value), Lower(term))) ||
    (e.employeeId.Some? && Includes(Lower(e.employeeId.value), Lower(term)))
  }

  /** The cards shown: the employees that match, in the order given. */
  function Filtered(es: seq<Profile>, term: string): (r: seq<Profile>)
    ensures forall e :: e in r <==> e in es && Matches(e, term)
    ensures |r| <= |es|
  {
    if es == [] then []
    else
      var n := |es| - 1;
      assert forall e :: e in es <==> e in es[..n] || e == es[n] by {
        assert es == es[..n] + [es[n]];
      }
      Filtered(es[..n], term) + (if Matches(es[n], term) then [es[n]] else [])
  }

  /** The empty term matches every employee that has a name or an id. */
  lemma EmptyTermMatches(e: Profile)
    requires e.fullName.Some? || e.employeeId.Some?
    ensures Matches(e, "")
  {
    assert Lower("") == "";
    if e.fullName.Some? {
      assert OccursAt(Lower(e.fullName.value), "", 0);
    } else {
      assert OccursAt(Lower(e.employeeId.value), "", 0);
    }
  }

  /** The list grows by the last employee exactly when that employee matches. */
  lemma FilteredLast(es: seq<Profile>, term: string)
    requires es != []
    ensures Filtered(es, term) ==
      Filtered(es[..|es| - 1], term) + (if Matches(es[|es| - 1], term) then [es[|es| - 1]] else [])
  {
  }

  /** A term every employee matches keeps the whole list, in order. */
  lemma {:induction false} AllMatchKeepsAll(es: seq<Profile>, term: string)
    requires forall i :: 0 <= i < |es| ==> Matches(es[i], term)
    ensures Filtered(es, term) == es
  {
    if es != [] {
      var n := |es| - 1;
      assert es == es[..n] + [es[n]];
      assert forall i :: 0 <= i < n ==> es[..n][i] == es[i];
      AllMatchKeepsAll(es[..n], term);
      FilteredLast(es, term);
      assert Matches(es[n], term);
    }
  }

  /** With the box empty every employee that has a name or an id is listed, an empty one included,
      and in the order given. */
  lemma EmptyTermListsNamedEmployees(es: seq<Profile>)
    requires forall i :: 0 <= i < |es| ==> es[i].fullName.Some? || es[i].employeeId.Some?
    ensures Filtered(es, "") == es
  {
    forall i | 0 <= i < |es| ensures Matches(es[i], "") {
      EmptyTermMatches(es[i]);
    }
    AllMatchKeepsAll(es, "");
  }

  /** An employee with neither a name nor an id is never listed, whatever the term. */
  lemma UnnamedEmployeeNeverListed(es: seq<Profile>, term: string, e: Profile)
    requires e.fullName.None? && e.employeeId.None?
    ensures e !in Filtered(es, term)
  {
  }

  /** The search ignores the case of the term. */
  lemma TermCaseIgnored(es: seq<Profile>, term: string)
    ensures forall e :: e in Filtered(es, term) <==> e in Filtered(es, Lower(term))
  {
    LowerIdempotent(term);
  }

  lemma LowerAppend(a: string, b: string)
    ensures Lower(a + b) == Lower(a) + Lower(b)
  {
    var l, r := Lower(a + b), Lower(a) + Lower(b);
    forall i | 0 <= i < |a + b| ensures l[i] == r[i] {
      if i < |a| {
        assert (a + b)[i] == a[i];
      } else {
        assert (a + b)[i] == b[i - |a|];
      }
    }
    assert l == r;
  }

  /** A text that contains `a + b` contains `a`. */
  lemma IncludesPrefix(s: string, a: string, b: string)
    requires Includes(s, a + b)
    ensures Includes(s, a)
  {
    var i :| OccursAt(s, a + b, i);
    assert s[i..i + |a|] == (a + b)[..|a|];
    assert OccursAt(s, a, i);
  }

  /** Typing more into the box only narrows the list. */
  lemma LongerTermNarrows(es: seq<Profile>, term: string, more: string)
    ensures forall e :: e in Filtered(es, term + more) ==> e in Filtered(es, term)
  {
    LowerAppend(term, more);
    forall e | e in Filtered(es, term + more) ensures Matches(e, term) {
      if e.fullName.Some? && Includes(Lower(e.fullName.value), Lower(term + more)) {
        IncludesPrefix(Lower(e.fullName.value), Lower(term), Lower(more));
      } else {
        IncludesPrefix(Lower(e.employeeId.value), Lower(term), Lower(more));
      }
    }
  }

  /** The no-records notice shows exactly when no employee matches. */
  lemma EmptyNotice(es: seq<Profile>, term: string)
    ensures |Filtered(es, term)| == 0 <==> forall e :: e in es ==> !Matches(e, term)
  {
    var r := Filtered(es, term);
    if r != [] {
      assert r[0] in r;
    }
  }

  /** The photo placeholder: the last two characters of the employee id, nothing when there is none. */
  function Placeholder(e: Profile): (r: Option<string>)
    ensures r.Some? <==> e.employeeId.Some?
    ensures r.Some? ==> |r.value| == (if |e.employeeId.value| < 2 then |e.employeeId.value| else 2) &&
                        e.employeeId.value == e.employeeId.value[..|e.employeeId.value| - |r.value|] + r.value
  {
    match e.employeeId
    case None => None
    case Some(id) => Some(TakeLast(id, 2))
  }

  /** The card's penalty figure, `total_penalty || 0`: the profile's total, and 0 when it has none
      (the locale formatting of the figure is not modelled). */
  function ShownPenalty(e: Profile): (r: int)
    ensures e.totalPenalty.None? ==> r == 0
    ensures e.totalPenalty.Some? ==> r == e.totalPenalty.value
  {
    PenaltyOf(e)
  }
}
