/** The fixed data the store starts with and the identity of the viewer.
    The seed case is keyed by the UTC date at start-up and stamped with the
    start-up time, both given as parameters. */
module Seed {
  import opened Wrappers
  import opened Types
  import opened Court

  /** The viewer on whose behalf the client submits and votes. */
  const CurrentUser := User("t2_dev_winner", "Judge_Reddit")

  function SeedCase(today: string, now: int): Case
  {
    Case(today,
      "The Case of the Accidental Permaban",
      "A junior moderator's dog stepped on the ban key and banned the community's most popular artist.",
      "/u/ArtisticLegend",
      "/u/ClumsyMod",
      [ Evidence("ev-seed-1", "Exhibit A: The Keyboard", "A photo of a dog hair under the Enter key.", false),
        Evidence("ev-seed-2", "Witness Testimony", "The neighbour heard a bark, clicking, then sobbing.", false),
        Evidence("ev-seed-3", "Character Note", "The defendant has been in r/GoodBoys for 8 years.", false) ],
      now)
  }

  function SeedVerdicts(today: string): seq<Verdict>
  {
    [ Verdict("v1", today, "LegalBeagle",
        "It was a \"Paw-sitively\" honest mistake. No intent to harm was established.",
        Some(Innocent), 42),
      Verdict("v2", today, "KarmaCop",
        "Gross negligence! A mods keyboard is a loaded weapon. 10 years of community service in /r/new.",
        Some(Guilty), 15) ]
  }

  function SeedStore(today: string, now: int): (st: Store)
    ensures Valid(st)
    ensures GetTodayCase(st, today) == Some(SeedCase(today, now))
  {
    Store([SeedCase(today, now)], SeedVerdicts(today))
  }
}
