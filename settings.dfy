/** The constants of the application's settings file, and who the admin is. */
module Settings {
  /** Number of books a ballot must choose. */
  const MaxVotesPerPerson: nat := 5
  /** Point budget every ballot must spend exactly. */
  const TotalPoints: nat := 100
  /** Number of books shown in the top section of the results page. */
  const TopBooksToDisplay: nat := 6

  /** The one user who sees every page and the admin tools. */
  const AdminName: string := "Phil"

  predicate IsAdmin(user: string)
  {
    user == AdminName
  }

  /** The admin test is an exact, case-sensitive comparison with a single name. */
  lemma AdminIsOneExactName(a: string, b: string)
    ensures IsAdmin("Phil")
    ensures !IsAdmin("phil") && !IsAdmin("PHIL")
    ensures IsAdmin(a) && IsAdmin(b) ==> a == b
  {
    assert "phil"[0] != "Phil"[0];
    assert "PHIL"[1] != "Phil"[1];
  }
}
