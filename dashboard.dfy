/** The dashboard entry page: it sends a visitor without a session home, an
    administrator to the admin overview, and an employee to their personal
    board, generating and storing the board's slug on the first visit. */
module Dashboard {
  import opened Wrappers
  import opened Text
  import opened Records

  /** Where the page sends the visitor, or the error it renders. */
  datatype Page = Home | AdminOverview | Board(slug: string) | ProfileError

  /** The generated slug: the lower-cased full name with every white space run turned into `-`,
      then `-`, then the lower-cased employee id; an absent field renders as `undefined`. */
  function SlugFor(p: Profile): string {
    var namePart := match p.fullName
      case Some(n) => Some(ReplaceSpaceRuns(Lower(n), "-"))
      case None => None;
    var idPart := match p.employeeId
      case Some(e) => Some(Lower(e))
      case None => None;
    Render(namePart) + "-" + Render(idPart)
  }

  function WithSlug(slug: string): Profile -> Profile {
    (q: Profile) => q.(slug := Some(slug))
  }

  /** The page on the store: no session goes home; a failed profile read or a missing profile row
      renders the error; an administrator goes to the overview; an employee with a slug goes to that board; otherwise the
      slug is generated, written to the profile (the write's failure is ignored) and visited. */
  function DashboardSpec(db: Db, user: Option<Id>, readFails: bool, updateFails: bool): (Db, Page) {
    if user.None? then (db, Home)
    else if readFails then (db, ProfileError)
    else match FindProfile(db.profiles, user.value)
      case None => (db, ProfileError)
      case Some(p) =>
        if p.role == ADMIN then (db, AdminOverview)
        else if Truthy(p.slug) then (db, Board(p.slug.value))
        else
          var slug := SlugFor(p);
          var db' := if updateFails then db
                     else db.(profiles := UpdateProfiles(db.profiles, user.value, WithSlug(slug)));
          (db', Board(slug))
  }

  /** The page as the code runs it. */
  method Visit(store: Store, user: Option<Id>, readFails: bool, updateFails: bool) returns (page: Page)
    modifies store
    ensures (store.State(), page) == DashboardSpec(old(store.State()), user, readFails, updateFails)
  {
    if user.None? {
      return Home;
    }
    var profile: Option<Profile> := None;
    if !readFails {
      profile := FindProfile(store.profiles, user.value);
    }
    if profile.None? {
      return ProfileError;
    }
    if profile.value.role == ADMIN {
      return AdminOverview;
    }
    if Truthy(profile.value.slug) {
      return Board(profile.value.slug.value);
    }
    var slug := SlugFor(profile.value);
    if !updateFails {
      store.profiles := UpdateProfiles(store.profiles, user.value, WithSlug(slug));
    }
    page := Board(slug);
  }

  /** The page writes only when an employee without a slug visits, and then only that profile's slug. */
  lemma OnlyAMissingSlugIsWritten(db: Db, user: Option<Id>, readFails: bool, updateFails: bool)
    ensures var (db', page) := DashboardSpec(db, user, readFails, updateFails);
      db' == db ||
      (user.Some? && !readFails && !updateFails && FindProfile(db.profiles, user.value).Some? &&
       var p := FindProfile(db.profiles, user.value).value;
       p.role != ADMIN && !Truthy(p.slug) && page == Board(SlugFor(p)) &&
       db'.(profiles := db.profiles) == db && |db'.profiles| == |db.profiles| &&
       forall i :: 0 <= i < |db.profiles| ==>
         db'.profiles[i] == if db.profiles[i].id == user.value then db.profiles[i].(slug := Some(SlugFor(p)))
                            else db.profiles[i])
  {
  }

  /** No session: home, nothing written. A failed read of the visitor's profile, or no row: the
      error, nothing written, whether or not the row exists. An administrator whose row was read:
      the overview, nothing written. */
  lemma SessionAndRoleRoute(db: Db, user: Option<Id>, readFails: bool, updateFails: bool)
    ensures user.None? ==> DashboardSpec(db, user, readFails, updateFails) == (db, Home)
    ensures user.Some? ==>
            (DashboardSpec(db, user, readFails, updateFails).1 == ProfileError <==>
             readFails || FindProfile(db.profiles, user.value).None?)
    ensures user.Some? && readFails ==> DashboardSpec(db, user, readFails, updateFails) == (db, ProfileError)
    ensures user.Some? && !readFails && FindProfile(db.profiles, user.value).Some? &&
            FindProfile(db.profiles, user.value).value.role == ADMIN ==>
            DashboardSpec(db, user, readFails, updateFails) == (db, AdminOverview)
  {
  }

  /** A generated slug is never empty, so a stored one is always followed on later visits. */
  lemma SlugIsNeverEmpty(p: Profile)
    ensures Truthy(Some(SlugFor(p)))
  {
  }

  /** With `id` the profiles' primary key, after the write the visitor's row holds the slug visited. */
  lemma StoredSlugIsVisited(db: Db, user: Option<Id>)
    requires UniqueProfileIds(db.profiles)
    requires DashboardSpec(db, user, false, false).0 != db
    ensures var (db', page) := DashboardSpec(db, user, false, false);
      UniqueProfileIds(db'.profiles) &&
      FindProfile(db'.profiles, user.value).Some? &&
      FindProfile(db'.profiles, user.value).value.slug == Some(page.slug)
  {
    var p := FindProfile(db.profiles, user.value).value;
    var ps' := DashboardSpec(db, user, false, false).0.profiles;
    var i :| 0 <= i < |db.profiles| && db.profiles[i] == p;
    assert ps'[i].id == user.value;
  }

  /** A second visit after a stored slug, whose profile read succeeds, goes to the same board and
      writes nothing. */
  lemma SecondVisitIsStable(db: Db, user: Option<Id>, updateFails: bool)
    requires UniqueProfileIds(db.profiles)
    requires DashboardSpec(db, user, false, false).0 != db
    ensures var (db', page) := DashboardSpec(db, user, false, false);
      DashboardSpec(db', user, false, updateFails) == (db', page)
  {
    StoredSlugIsVisited(db, user);
    var (db', page) := DashboardSpec(db, user, false, false);
    var p := FindProfile(db.profiles, user.value).value;
    var i :| 0 <= i < |db.profiles| && db.profiles[i] == p;
    assert db'.profiles[i] == p.(slug := Some(SlugFor(p)));
    assert FindProfile(db'.profiles, user.value) == Some(db'.profiles[i]);
  }

  predicate NoCapital(s: string) {
    forall i :: 0 <= i < |s| ==> !('A' <= s[i] <= 'Z')
  }

  lemma NameRunsHaveNoCapital(n: string)
    ensures NoCapital(ReplaceSpaceRuns(Lower(n), "-"))
  {
    var l := Lower(n);
    assert NoCapital(l);
    ReplaceSpaceRunsChars(l, "-");
    var r := ReplaceSpaceRuns(l, "-");
    forall i | 0 <= i < |r| ensures !('A' <= r[i] <= 'Z') {
      assert r[i] in r;
    }
  }

  lemma NoCapitalAppend(a: string, b: string)
    requires NoCapital(a) && NoCapital(b)
    ensures NoCapital(a + b)
  {
    forall i | 0 <= i < |a + b| ensures !('A' <= (a + b)[i] <= 'Z') {
      if i < |a| {
        assert (a + b)[i] == a[i];
      } else {
        assert (a + b)[i] == b[i - |a|];
      }
    }
  }

  /** A generated slug has no capital letter, and its name part holds no white space. */
  lemma SlugShape(p: Profile)
    ensures NoCapital(SlugFor(p))
    ensures p.fullName.Some? ==> NoSpace(SlugFor(p)[..|ReplaceSpaceRuns(Lower(p.fullName.value), "-")|])
  {
    var namePart := match p.fullName
      case Some(n) => ReplaceSpaceRuns(Lower(n), "-")
      case None => "undefined";
    var idPart := match p.employeeId
      case Some(e) => Lower(e)
      case None => "undefined";
    assert SlugFor(p) == namePart + "-" + idPart;
    if p.fullName.Some? {
      NameRunsHaveNoCapital(p.fullName.value);
      ReplaceSpaceRunsLeavesNoSpace(Lower(p.fullName.value), "-");
      assert SlugFor(p)[..|namePart|] == namePart;
    } else {
      assert NoCapital(namePart);
    }
    assert NoCapital(idPart);
    NoCapitalAppend(namePart, "-");
    NoCapitalAppend(namePart + "-", idPart);
  }

  /** A profile without a full name gets a slug starting `undefined-`; without an employee id, one
      ending `-undefined`. */
  lemma MissingFieldsRenderUndefined(p: Profile)
    ensures p.fullName.None? ==> "undefined-" <= SlugFor(p)
    ensures p.employeeId.None? ==> SlugFor(p)[|SlugFor(p)| - 10..] == "-undefined"
  {
  }
}
