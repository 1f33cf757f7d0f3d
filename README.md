# Version rollout and package card, modelled in Dafny

This project models the logic of the `NpmPackage` card component of
npm-download-stat (`src/components/npm-package/index.tsx`): the card that shows
a package's registry statistics next to its GitHub repository. The logic is:

- the **version-rollout ranker** (`VersionRollout` with `sortFunctions`): the
  weekly download histogram (version string to download count) is sorted by
  the `count` or the `semver` strategy, cut to `limit` rows, and each row gets
  the share `100 * count / totalCount` of the downloads of the *whole*
  histogram and a flag saying whether its version is `latestVersion`;
- **all-or-nothing aggregation**: `Promise.all` over the two fetches inside a
  `try`/`catch`, so the card is shown only when both fetches succeed and the
  error placeholder otherwise;
- two small helpers: the license label (`license.split(" ")[0]`) and the verb
  of the install lines (`install` for npm, `add` for yarn and pnpm).

Everything is pure, so the model is datatypes, functions and lemmas:

- `outcomes.dfy` — module `Outcomes`: `Option` (a property that may be
  `undefined`) and `Result` (a settled promise).
- `sort_order.dfy` — module `SortOrder`: `Array.prototype.sort` with a
  comparator returning a number (negative: first argument goes first). `Sort`
  is a stable insertion sort; the module proves it returns a sorted
  permutation that keeps every tie class in input order, and that any sort
  with these three properties returns exactly the same sequence
  (`StableSortIsUnique`), so the choice of algorithm does not matter.
- `version_rollout.dfy` — module `VersionRollout`: the two comparators, the
  strategy lookup, `slice(0, limit)`, the `reduce` total, the share, the rows
  and their properties.
- `npm_package.dfy` — module `NpmPackage`: the `Promise.all` fold, `split(" ")`,
  the license label, the install lines and the composition of the card.

A histogram is a `seq<(string, int)>` in `Object.entries` order. Counts are
unbounded integers. A share is kept exact, as the fraction
`(100 * count) / totalCount`; a zero total gives `NaN` or an infinity, as
IEEE division does. The `semver` comparator `compareBuild` of node-semver is a
parameter of type `(string, string) -> int`; the ordering lemmas assume it is a
consistent comparator (`SortOrder.Consistent`). The fetchers are replaced by
their settled results, and which fetch rejected first in time is a parameter.

Edge cases of the code:

- A negative `limit` does not give an empty list: `slice(0, limit)` then drops
  `-limit` entries from the end (`VersionRollout.Slice`). A limit of 0
  hides the list (`versionRollout && …`).
- A zero total does not give 0%: every share is `NaN` (or an infinity when
  counts are negative and cancel out) (`VersionRollout.Share`).
- When both fetches fail, the reported error is the first rejection in time,
  not the first by position (`NpmPackage.All`).

## Model

| member | source | states |
|---|---|---|
| SortOrder.Insert | src/components/npm-package/index.tsx:203 | inserting one element yields a sequence one longer whose multiset is the old one plus that element |
| SortOrder.Sort | src/components/npm-package/index.tsx:202-203 | the sorted copy has the same length and the same multiset of entries as the input: a permutation |
| SortOrder.SortSorted | src/components/npm-package/index.tsx:203 | under a consistent comparator, every entry goes first or ties with every entry after it |
| SortOrder.SortStable | src/components/npm-package/index.tsx:203 | for every tie class, the sorted copy lists its members in their input order (stability of `Array.prototype.sort`) |
| SortOrder.StableSortIsUnique | src/components/npm-package/index.tsx:203 | any sorted, tie-order-preserving permutation of the input equals `Sort` of the input |
| SortOrder.TiesOfPrefix | src/components/npm-package/index.tsx:204 | keeping a prefix keeps a prefix of every tie class |
| VersionRollout.ByCountConsistent | src/components/npm-package/index.tsx:190 | `b - a` on the counts is a consistent comparator |
| VersionRollout.BySemverConsistent | src/components/npm-package/index.tsx:191 | `compareBuild(b, a)` on the versions is consistent whenever `compareBuild` is |
| VersionRollout.ComparatorConsistent | src/components/npm-package/index.tsx:183-192 | whatever the strategy key, the comparator chosen is consistent; only `semver` needs `compareBuild` to be consistent |
| VersionRollout.Slice | src/components/npm-package/index.tsx:204 | `slice(0, end)` keeps a prefix: all of the input when `end` is at least its length, at most `end` entries for a non-negative `end`, and for a negative `end` everything but the last `-end` entries (nothing when `-end` covers the whole input) |
| VersionRollout.Share | src/components/npm-package/index.tsx:237-245 | the share is a fraction over the total exactly when the total is not zero, and then its value times the total is 100 times the count; a zero total gives NaN for a zero count and an infinity otherwise |
| VersionRollout.ShareValue | src/components/npm-package/index.tsx:245 | the share lies in [0, 100] when the count is part of a positive total |
| VersionRollout.Rank | src/components/npm-package/index.tsx:194-253 | row i shows entry i of the sorted histogram, its share is taken against the total of the whole histogram, and it is current iff its version equals `latestVersion` |
| VersionRollout.RankLength | src/components/npm-package/index.tsx:204 | there are `min(limit, n)` rows for a non-negative limit; a negative limit drops that many entries from the end |
| VersionRollout.RankIsPrefixOfPermutation | src/components/npm-package/index.tsx:201-204 | the rows' (version, count) pairs are a prefix of the sorted permutation, a sub-multiset of the histogram, and all of it when limit >= n |
| VersionRollout.RankByCountOrdered | src/components/npm-package/index.tsx:190-203 | with `count` or an unknown key, counts never increase down the rows |
| VersionRollout.RankByCountStable | src/components/npm-package/index.tsx:190-203 | rows with equal counts keep their entry order and are the first entries with that count |
| VersionRollout.RankBySemverOrdered | src/components/npm-package/index.tsx:191-203 | with `semver`, `compareBuild(earlier row, later row) >= 0` for every pair of rows |
| VersionRollout.RankStable | src/components/npm-package/index.tsx:201-204 | for either strategy (for `semver`, when `compareBuild` is consistent), the rows tied under its comparator are a prefix, in entry order, of the histogram's entries in that tie class |
| VersionRollout.UnknownStrategyIsCount | src/components/npm-package/index.tsx:203 | a key other than `count` and `semver` gives exactly the rows of `count` |
| VersionRollout.TotalSort | src/components/npm-package/index.tsx:205-208 | sorting does not change the `reduce` total |
| VersionRollout.TotalAppend | src/components/npm-package/index.tsx:205-208 | the total of a concatenation is the sum of the totals |
| VersionRollout.RankShares | src/components/npm-package/index.tsx:205-245 | with a non-zero total, every row's share is a fraction over the total of the whole histogram, and the numerators add up to 100 times the downloads shown |
| VersionRollout.RankSharesComplete | src/components/npm-package/index.tsx:204-245 | when nothing is cut off, the shares add up to exactly 100 percent |
| VersionRollout.RankSharesAtMost100 | src/components/npm-package/index.tsx:204-245 | with no negative count, the shares of the shown rows add up to at most 100 percent |
| VersionRollout.RankTruncation | src/components/npm-package/index.tsx:204-208 | the rows for a smaller limit are a prefix of the rows for a larger one, shares included: the denominator does not depend on the limit |
| VersionRollout.AtMostOneCurrent | src/components/npm-package/index.tsx:224-225 | with distinct version keys, at most one row is flagged current |
| VersionRollout.WorkedExample | src/components/npm-package/index.tsx:201-245 | `{"2.0.0": 80, "1.9.0": 15, "1.8.0": 5}`, limit 2, `count`: rows 2.0.0 (80/100, current) and 1.9.0 (15/100); 1.8.0 still counts in the total |
| VersionRollout.EmptyHistogram | src/components/npm-package/index.tsx:201-208 | an empty histogram gives no rows for any limit and strategy, so nothing is divided |
| NpmPackage.All | src/components/npm-package/index.tsx:42-45 | the join succeeds iff both fetches succeed, with both values unchanged; otherwise it fails with the error of a failed fetch, the only failure's when one fails |
| NpmPackage.Split | src/components/npm-package/index.tsx:89 | `split(" ")` returns at least one piece and no piece contains a space |
| NpmPackage.JoinSplit | src/components/npm-package/index.tsx:89 | joining the pieces of `split(" ")` with spaces gives the string back |
| NpmPackage.FirstPiece | src/components/npm-package/index.tsx:89 | the first piece is the longest prefix without a space: the whole string, or followed by a space |
| NpmPackage.LicenseLabel | src/components/npm-package/index.tsx:86-91 | a label is shown iff the license is present and non-empty, and it is the license's first space-delimited token |
| NpmPackage.Verb | src/components/npm-package/index.tsx:168 | the verb is `install` iff the manager is npm, and `add` iff it is not |
| NpmPackage.InstallLinesVerbs | src/components/npm-package/index.tsx:99-114 | the lines are `$ pnpm add`, `$ yarn add` and `$ npm install` followed by the package name |
| NpmPackage.Render | src/components/npm-package/index.tsx:41-146 | the card is shown iff both fetches succeed and is built from both values; otherwise the error view carries only the package name and a fetch's error |
| NpmPackage.DefaultRolloutIsTopFiveByCount | src/components/npm-package/index.tsx:37-126 | with default properties the rollout list shows min(5, n) rows ordered by non-increasing count |

## Left out

- JSX markup, Tailwind classes, icons, `EmbedFrame`, `GithubAvatar` and the hidden `<data>` timestamps: presentation only.
- `SvgCurveGraph` and `formatStatNumber`, and the star and all-time download figures they display: collaborators whose source is not part of this model.
- `fetchNpmPackage` and `fetchRepository`: network I/O; the model takes their settled results as `Result` values and keeps only the fields the logic reads.
- The timing of `Promise.all`: which fetch rejects first is the parameter `firstRejected`, and the fact that the card waits for nothing after the first rejection is not modelled.
- `console.error` in the `catch` branch: a logging side effect.
- Errors thrown while the card is built after both fetches succeeded (for example by `compareBuild` on an invalid version string, which surfaces when the rollout list renders): not modelled; the comparator is total.
- VersionRollout.RankBySemverOrdered: assumes that `compareBuild` is a consistent comparator; node-semver's precedence rules are not modelled.
- VersionRollout.RankSharesAtMost100: holds only for non-negative counts; negative counts are not rejected by the source and make the bound fail.
- Floating-point arithmetic: counts and totals are exact integers, the share is an exact fraction, and the `toFixed(0)` rounding of the label is not modelled.
- The bar width cap (`right-24` with `maxWidth` set to the share): layout.
- `Object.entries` puts integer-like keys first in ascending order; the model takes the histogram already in entry order.
- A strategy key that names an inherited property of `Object.prototype` (such as `toString`) would select that function instead of falling back to `count`; the property type restricts the key to `count` and `semver`, and the model treats every other key as unknown.
- A non-integer or `NaN` limit: the limit is an integer.
- React rendering the number `0` when `versionRollout` is 0: presentation; the model only records that the list is hidden.
