/**
 * The package card: the two fetches joined all-or-nothing, the license label,
 * the install lines, and the composition of the card from the two results.
 */
module NpmPackage {
  import opened Outcomes
  import opened VersionRollout

  /**
   * The part of the registry statistics the card reads: the package's name and
   * npm page, which every install line shows and links to, and its histogram.
   */
  datatype NpmStats = NpmStats(packageName: string, url: string, versions: seq<Entry>)

  /** The part of the repository metadata the card's logic reads. */
  datatype GithubRepo = GithubRepo(url: string, license: Option<string>, description: Option<string>)

  /** The two fetches `Promise.all` waits for. */
  datatype Fetch = NpmFetch | GithubFetch

  /**
   * `Promise.all([fetchNpmPackage(pkg), fetchRepository(repo)])` once both have
   * settled. It fulfils with both values when both fulfil, and otherwise rejects
   * with the error of a rejected fetch; when both reject, the one that rejected
   * first in time (`firstRejected`) decides.
   */
  function All<A, B, E>(npm: Result<A, E>, github: Result<B, E>, firstRejected: Fetch): (r: Result<(A, B), E>)
    ensures r.Ok? <==> npm.Ok? && github.Ok?
    ensures r.Ok? ==> r.value == (npm.value, github.value)
    ensures r.Err? ==> (npm.Err? && r.error == npm.error) || (github.Err? && r.error == github.error)
    ensures npm.Err? && github.Ok? ==> r == Err(npm.error)
    ensures npm.Ok? && github.Err? ==> r == Err(github.error)
  {
    match (npm, github)
    case (Ok(a), Ok(b)) => Ok((a, b))
    case (Err(e), Ok(_)) => Err(e)
    case (Ok(_), Err(e)) => Err(e)
    case (Err(e1), Err(e2)) => if firstRejected == NpmFetch then Err(e1) else Err(e2)
  }

  // ---------------------------------------------------------------------------
  // The license label: `github.license && github.license.split(" ")[0]`.

  /** `s.split(" ")`: the pieces of `s` between single spaces, empty pieces included. */
  function Split(s: string): (tokens: seq<string>)
    ensures |tokens| >= 1
    ensures forall i :: 0 <= i < |tokens| ==> ' ' !in tokens[i]
  {
    if s == [] then [""]
    else
      var rest := Split(s[1..]);
      if s[0] == ' ' then [""] + rest
      else [[s[0]] + rest[0]] + rest[1..]
  }

  /** `tokens.join(" ")`. */
  function Join(tokens: seq<string>): string
    requires |tokens| >= 1
  {
    if |tokens| == 1 then tokens[0] else tokens[0] + " " + Join(tokens[1..])
  }

  /** Splitting at spaces loses nothing: joining the pieces with spaces gives `s` back. */
  lemma {:induction false} JoinSplit(s: string)
    ensures Join(Split(s)) == s
  {
    if s != [] {
      JoinSplit(s[1..]);
      var rest := Split(s[1..]);
      if s[0] == ' ' {
        assert ([""] + rest)[1..] == rest;
      } else if |rest| > 1 {
        var t := [[s[0]] + rest[0]] + rest[1..];
        assert t[1..] == rest[1..];
        assert Join(rest) == rest[0] + " " + Join(rest[1..]);
      }
      assert s == [s[0]] + s[1..];
    }
  }

  /**
   * The first piece of `s.split(" ")` is the longest prefix of `s` without a
   * space: it is `s` itself, or a space follows it.
   */
  lemma {:induction false} FirstPiece(s: string)
    ensures var t := Split(s)[0];
      && t <= s && ' ' !in t
      && (|t| == |s| || s[|t|] == ' ')
  {
    if s != [] && s[0] != ' ' {
      FirstPiece(s[1..]);
    }
  }

  /**
   * The license shown: nothing when the repository has no license or an empty
   * one, otherwise the first space-separated piece of it.
   */
  function LicenseLabel(license: Option<string>): (shown: Option<string>)
    ensures shown.Some? <==> license.Some? && license.value != ""
    ensures shown.Some? ==> shown.value <= license.value && ' ' !in shown.value
    ensures shown.Some? ==> |shown.value| == |license.value| || license.value[|shown.value|] == ' '
  {
    match license
    case Some(text) =>
      if text == "" then None
      else
        FirstPiece(text);
        Some(Split(text)[0])
    case None => None
  }

  // ---------------------------------------------------------------------------
  // The install lines.

  datatype PackageManager = Npm | Yarn | Pnpm

  function ManagerName(pm: PackageManager): string {
    match pm
    case Npm => "npm"
    case Yarn => "yarn"
    case Pnpm => "pnpm"
  }

  /** The verb of the install line: `install` for npm, `add` for yarn and pnpm. */
  function Verb(pm: PackageManager): (verb: string)
    ensures verb == "install" <==> pm == Npm
    ensures verb == "add" <==> pm != Npm
  {
    if ManagerName(pm) == "npm" then "install" else "add"
  }

  /** The text of one install line, `$ <manager> <verb> <package>`. */
  function InstallLine(pm: PackageManager, packageName: string): string {
    "$ " + ManagerName(pm) + " " + Verb(pm) + " " + packageName
  }

  /** pnpm's line as the summary, then yarn's and npm's. */
  function InstallLines(packageName: string): seq<string> {
    [InstallLine(Pnpm, packageName), InstallLine(Yarn, packageName), InstallLine(Npm, packageName)]
  }

  /** Only npm's line uses `install`; each line ends with the package name. */
  lemma InstallLinesVerbs(packageName: string)
    ensures var lines := InstallLines(packageName);
      && lines[0] == "$ pnpm add " + packageName
      && lines[1] == "$ yarn add " + packageName
      && lines[2] == "$ npm install " + packageName
  {
  }

  // ---------------------------------------------------------------------------
  // The card.

  /** The component's properties; absent ones take their defaults. */
  datatype Props = Props(pkg: string, repo: string, version: string,
                         versionRollout: Option<int>, versionRolloutSort: Option<string>)

  const DefaultRollout := 5
  const DefaultSort := "count"

  /** What the card shows that the core computes. */
  datatype Card = Card(
    repo: string,
    repoUrl: string,
    versionTag: Option<string>,
    license: Option<string>,
    description: Option<string>,
    install: seq<string>,
    packageUrl: string,
    rollout: Option<seq<Row>>)

  /** Either the card, or the error placeholder naming the package and the error. */
  datatype View<E> = CardView(card: Card) | ErrorView(pkg: string, error: E)

  /** The card built from two fetched values; the rollout list is shown unless its limit is 0. */
  function CardOf(props: Props, npm: NpmStats, github: GithubRepo,
                  compareBuild: (string, string) -> int): Card
  {
    var limit := props.versionRollout.GetOr(DefaultRollout);
    var sort := props.versionRolloutSort.GetOr(DefaultSort);
    Card(
      props.repo,
      github.url,
      if props.version != "" then Some(props.version) else None,
      LicenseLabel(github.license),
      github.description,
      InstallLines(npm.packageName),
      npm.url,
      if limit != 0 then Some(Rank(npm.versions, limit, sort, Some(props.version), compareBuild)) else None)
  }

  /**
   * The component: the card when both fetches succeed, and otherwise the error
   * placeholder, which carries nothing from either fetch but the error.
   */
  function Render<E>(props: Props, npm: Result<NpmStats, E>, github: Result<GithubRepo, E>,
                     firstRejected: Fetch, compareBuild: (string, string) -> int): (view: View<E>)
    ensures view.CardView? <==> npm.Ok? && github.Ok?
    ensures view.CardView? ==> view.card == CardOf(props, npm.value, github.value, compareBuild)
    ensures view.ErrorView? ==> view.pkg == props.pkg
    ensures view.ErrorView? ==> (npm.Err? && view.error == npm.error) || (github.Err? && view.error == github.error)
  {
    match All(npm, github, firstRejected)
    case Ok((n, g)) => CardView(CardOf(props, n, g, compareBuild))
    case Err(e) => ErrorView(props.pkg, e)
  }

  /**
   * With default properties the card lists the five most downloaded versions,
   * ranked by count, highlighting `props.version`.
   */
  lemma DefaultRolloutIsTopFiveByCount(props: Props, npm: NpmStats, github: GithubRepo,
                                       compareBuild: (string, string) -> int)
    requires props.versionRollout.None? && props.versionRolloutSort.None?
    ensures var card := CardOf(props, npm, github, compareBuild);
      && card.rollout.Some?
      && |card.rollout.value| == (if |npm.versions| < 5 then |npm.versions| else 5)
      && forall i, j :: 0 <= i < j < |card.rollout.value| ==> card.rollout.value[i].count >= card.rollout.value[j].count
  {
    RankByCountOrdered(npm.versions, 5, "count", Some(props.version), compareBuild);
  }
}
