# Proofs about the field-operations rules

The shared package of this system holds the rules that the office, the field app and the server must
agree on: whether the name on a card is the name on the record, which way an assayer may be moved
through the lifecycle, whether an identity number was mistyped, how much tax to withhold from a
fee, what a branch import may write, when a background check falls due, how an amount reads in
words, and who may decide an onboarding approval. One backend script also states two query rewrites
that must return what the plain queries return. This project models those rules in Dafny and proves
what they promise, for all inputs.

One module models one source file or one part of it:

| module | models |
|---|---|
| `TextDistance` | the bounded edit distance, three rolling rows with early exits |
| `Pairing`, `NameMatch` | Kuhn's search for the largest pairing of words, and the grades built on it |
| `WordSorting`, `StrongOrder`, `WeakOrder`, `GradeOrder` | when the order of the words decides the grade |
| `Walks`, `RoutePlanner`, `Lifecycle` | the breadth-first route planner, the explanation of a refusal, the real transition map |
| `Verhoeff`, `Gstin` | the two checksums and the numbers that carry them |
| `Tds194j` | withholding under section 194J of the Income-tax Act, 1961, over a year and over a history |
| `BranchRows`, `BranchImport` | readiness of an imported row, applying a review's decisions, computing them |
| `Calendar`, `PeriodicChecks` | days and dates, date keys, standing on a periodic check |
| `IndianWords` | amounts in words |
| `Keyset`, `Reconcile` | paging by cursor, and the two reconciliation queries |
| `Approval` | who prepared an approval round and who asked its open question |

Loops and in-place updates of the source stay loops and in-place updates: the pairing search, the date
object and the rolling rows are mutated as in the source, and each method is tied by its
postcondition to a property or to a specification function about which the lemmas speak.

## How the main results fit together

* **Names.** `OsaIsReached` and `OsaIsLeast` show that the recurrence is the least number of slips
  in any edit script; `HopelessStays` shows that a row over budget can be given up although a swap
  looks two rows back; `EditDistance` ties the rolling-row computation to it. `Find` and `Kuhn` are the
  search as functions, which the mutating `Augment` and `MaximumPairing` equal. `FindKeeps` shows that
  failed searches leave sets no later success can enter, `StuckMeansMaximum` is a Hall-type bound over
  those sets, and together they make the pairing maximum for every agreement relation
  (`KuhnIsMaximum`). It also pairs exactly those record words that can be paired along with all paired
  before them (`Kept`), so which record words are left over depends on the order of the record alone.
* **Grades.** The MISMATCH verdict never depends on order or sides. STRONG against WEAK does:
  `AnilDependsOnOrder` and `KumarDependsOnOrder` are inputs. `OrderDecides` is the exact condition: the grade is the
  same in every order exactly when all full pairings of the words rest on a written-out word, or none does.
  The hard half exhibits orders. `LastTakesFirst` moves any given pair into the result by putting its
  words last and first; `ChainFinds` shows that with initials first the words of one letter only ever push
  each other along, so no two written-out words meet.
* **Lifecycle.** `Walks` orders routes by length and then by the listed order of successors. `KeepsUp` says that
  the search reaches every stop of any route no later than the route does, in that order; so the plan is
  the first of the shortest routes (`IsFirstRoute`), of which there is one (`OneFirstRoute`), and
  `BlockedBy` is fixed completely. One comment in the planner speaks of a legal four-hop chain from
  invited to active; under the present waypoint rules there is none (`DecisionsAreSingleMoves`), as a
  later comment in the same function says, and `WhyInvitedIsNotActivated` confirms the latter.
  `RealPlan` gives the plan, step by step, for every pair of states of the real map.
* **Checksums.** The Verhoeff tables are shown to be the dihedral group and the powers of one
  permutation; error detection follows from the algebra for strings of every length. The comment above the
  GSTIN sum names ISO 7064 MOD 37-36, but the code is a Luhn-style sum modulo 36; the code is what is
  modelled. Its one blind spot, '0' next to 'Z', is exact (`SwapShows`), and the pattern shuts it out.
* **Withholding.** `YearClosedForm` needs no bound on the rate: above 100% the cap at the fee takes over.
* **Branch import.** `RowRoundTrip` gives the exact condition under which the screen's row survives the trip;
  `RoundTrip` lifts it to whole files. `NothingElseIsWritten` holds for malformed decisions as well.
* **Date keys.** The source prints years without padding, so the result of adding days or months is a key
  again exactly in the years 1000 to 9999; the two methods say so for every result.
* **Words.** `SameTextExactly` covers amounts that are not whole paise: the text tells sign, whole rupees and
  nearest paise, and nothing else. From 99.5 paise on it says "One Hundred Paise" (`HundredPaise`).
* **Paging.** With an exact cursor the keyset queries are the OFFSET query. The script builds its
  cursor with `toISOString`, which keeps milliseconds of a microsecond column, so its page can
  miss rows: `IsoCursorCanSkip` is a concrete case and `IsoCursorIsOffset` the exact condition.

## Model

| member | source | states |
|---|---|---|
| `TextDistance.EditDistance` | packages/shared/src/text-distance.ts:34-72 | the bounded distance is at most the ceiling exactly when the true distance is, and is the true distance unless it reports one over the ceiling, for any ceiling and either swap setting |
| `TextDistance.FillRow` | packages/shared/src/text-distance.ts:48-65 | one pass over a row makes it the next row of the table, and its minimum is a lower bound of the row |
| `TextDistance.RowFollows` | packages/shared/src/text-distance.ts:48-71 | each row of the distance table follows from the two above it alone, so three rolling rows are enough |
| `TextDistance.OsaIsReached` | packages/shared/src/text-distance.ts:10-33 | some edit script of inserts, deletions, replacements and (if allowed) swaps costs exactly the table's entry |
| `TextDistance.OsaIsLeast` | packages/shared/src/text-distance.ts:10-33 | no edit script costs less than the table's entry |
| `TextDistance.WithinBudget` | packages/shared/src/text-distance.ts:10-33 | two texts are within k exactly when a script of at most k slips joins them |
| `TextDistance.OsaSymmetric` | packages/shared/src/text-distance.ts:34-72 | the distance does not depend on which text comes first |
| `TextDistance.LengthGap` | packages/shared/src/text-distance.ts:40-41 | the difference in length is a lower bound, so the length exit loses nothing |
| `TextDistance.CheaperNearby` | packages/shared/src/text-distance.ts:54-65 | every cell costs at least as much as one to its left or in the row just above, swaps included |
| `TextDistance.HopelessStays` | packages/shared/src/text-distance.ts:63-65 | once every entry of a row is over the ceiling so is every entry below it, so the row exit loses nothing |
| `NameMatch.TestWords` | packages/shared/src/name-match.ts:110-121 | testing through the bounded distance decides agreement defined by the true distance |
| `NameMatch.WordsAgreeSymmetric` | packages/shared/src/name-match.ts:110-121 | agreement, initials, abbreviations and fuzzy spelling included, does not depend on sides |
| `NameMatch.WordsAgreeIsFair` | packages/shared/src/name-match.ts:98-121 | the real agreement rule is reflexive and symmetric |
| `NameMatch.FullWordsAgree` | packages/shared/src/name-match.ts:56-121 | two different written-out words that are not listed short forms: never in agreement if either has four letters or fewer; with five or more on both sides exactly when one slip joins them |
| `NameMatch.ShortFormsAgree` | packages/shared/src/name-match.ts:98-121 | a listed short form agrees with MOHAMMED, with every other listed form, and beyond that exactly with the words of five letters or more that are one slip from MOHAMMED |
| `NameMatch.InitialsAgree` | packages/shared/src/name-match.ts:107-115 | a single letter agrees exactly with the words that begin with it, on either side |
| `Pairing.FindKeeps` | packages/shared/src/name-match.ts:135-147 | for any stuck set: a failed search visits every word its root agrees with and leaves all it visited paired and explored; a successful one adds exactly its root, keeps every other word paired once, and neither leaves nor touches the stuck set |
| `Pairing.PairingSearch.Augment` | packages/shared/src/name-match.ts:135-147 | the closure, with pairing and visited set shared and updated in place, does what `Find` does, and so keeps all that |
| `Pairing.TakeVacated` | packages/shared/src/name-match.ts:140-144 | after the holder has been paired elsewhere, overwriting its word leaves every word used once |
| `Pairing.StuckUnion` | packages/shared/src/name-match.ts:135-149 | what a failed root visited can be added to the stuck set |
| `Pairing.StuckMeansMaximum` | packages/shared/src/name-match.ts:123-130 | when every unpaired record word agrees only with words of a stuck set, no pairing is larger |
| `Pairing.StuckMeansUncoverable` | packages/shared/src/name-match.ts:135-149 | a root that failed cannot be paired by any pairing along with all those paired before it |
| `Pairing.KuhnKeeps` | packages/shared/src/name-match.ts:149 | after any number of roots the record words paired are those kept greedily, and all that the failed roots agree with is stuck |
| `Pairing.KuhnIsMaximum` | packages/shared/src/name-match.ts:123-151 | the pairing in the end is valid, none is larger, and it pairs the greedily kept record words |
| `Pairing.MaximumPairing` | packages/shared/src/name-match.ts:131-151 | for every two word lists and every agreement relation: a valid pairing, none is larger, and it uses exactly those record words that can be paired along with all used before them |
| `NameMatch.CompareMeans` | packages/shared/src/name-match.ts:172-204 | MISMATCH exactly when the shorter side cannot be wholly paired or a side is empty; EXACT exactly for the same words in any order; the record words left over are those that cannot be paired along with all before them; STRONG exactly when the pairing covers the shorter side and rests on a written-out word |
| `NameMatch.CompareNames` | packages/shared/src/name-match.ts:172-204 | the comparison says all that of the pairing the search finds |
| `NameMatch.CompareWords` | packages/shared/src/name-match.ts:172-207 | the same under the real agreement rule; a grade is acceptable exactly when the names corroborate each other |
| `NameMatch.UnusedExactly` | packages/shared/src/name-match.ts:191-192 | the words left over are those at the places the pairing does not use, each once and in order |
| `GradeOrder.SingleWords` | packages/shared/src/name-match.ts:172-204 | two different single words: MISMATCH unless they agree, WEAK if an initial carries it, STRONG otherwise |
| `GradeOrder.ShortWordsMismatch` | packages/shared/src/name-match.ts:56-66 | a different word of four letters or fewer is graded MISMATCH; of five or more, STRONG exactly one slip away |
| `GradeOrder.RaviIsNotRani` | packages/shared/src/name-match.ts:56-66 | RAVI against RANI is MISMATCH |
| `NameMatch.SameWordsCorroborate` | packages/shared/src/name-match.ts:183-186 | the exact shortcut never contradicts the pairing |
| `NameMatch.MismatchIgnoresOrder` | packages/shared/src/name-match.ts:153-207 | whether names mismatch is unchanged by permuting the words on either side, for any agreement |
| `NameMatch.MismatchIgnoresSides` | packages/shared/src/name-match.ts:153-207 | nor by exchanging record and document, for a symmetric agreement |
| `StrongOrder.LastTakesFirst` | packages/shared/src/name-match.ts:135-149 | the last record word searched from takes the first document word, whoever holds it, when all can be paired that way |
| `StrongOrder.FirstDecide` | packages/shared/src/name-match.ts:149 | once the pairing is full no later root changes it |
| `StrongOrder.StrongOrderExists` | packages/shared/src/name-match.ts:188-201 | any full pairing that rests on a written-out word has an order of the words that is graded STRONG, for any agreement |
| `WeakOrder.ChainFinds` | packages/shared/src/name-match.ts:135-147 | with initials first, a search succeeds and pushes the words of one letter along without pairing two written-out words |
| `WeakOrder.WeakOrderExists` | packages/shared/src/name-match.ts:188-201 | any full pairing that rests on none has an order graded WEAK, where initials stand for their letter only |
| `GradeOrder.WeakInEveryOrder` | packages/shared/src/name-match.ts:153-204 | the grade is WEAK in every order of the words exactly when no full pairing rests on a written-out word, for any agreement |
| `GradeOrder.StrongInEveryOrder` | packages/shared/src/name-match.ts:153-204 | it is STRONG in every order exactly when every full pairing does, where initials stand for their letter only |
| `GradeOrder.OrderDecides` | packages/shared/src/name-match.ts:110-204 | both, under the real agreement rule |
| `GradeOrder.AnilDependsOnOrder` | packages/shared/src/name-match.ts:188-201 | "A ANIL" against "ANIL" is WEAK and "ANIL A" is STRONG |
| `GradeOrder.KumarDependsOnOrder` | packages/shared/src/name-match.ts:188-201 | "K KUMAR" is WEAK against "K KUMARI" and STRONG against "KUMARI K" |
| `Walks.EarlierIsTotal` | packages/shared/src/assayer-lifecycle.ts:405-417 | of two different walks of one length one takes the earlier-listed successor where they first differ |
| `Walks.OneFirstRoute` | packages/shared/src/assayer-lifecycle.ts:376-421 | there is only one first route |
| `RoutePlanner.Discover` | packages/shared/src/assayer-lifecycle.ts:406-418 | a newly reached state joins the end of the queue and the queue stays in order |
| `RoutePlanner.Expand` | packages/shared/src/assayer-lifecycle.ts:406-418 | expanding one state either finds the first of the shortest routes or keeps everything the search knows |
| `RoutePlanner.KeepsUp` | packages/shared/src/assayer-lifecycle.ts:400-421 | every stop of any legal route has been reached by a walk that is not after the route |
| `RoutePlanner.NoEarlierRoute` | packages/shared/src/assayer-lifecycle.ts:400-421 | with everything before a walk expanded and the destination not found, no route gets there from before it |
| `RoutePlanner.ShortestRoute` | packages/shared/src/assayer-lifecycle.ts:400-421 | on any finite map and barred set: an answer is a legal chain with nothing barred inside, none is shorter, and among those of its length it is the first in listed order; no answer means no such chain |
| `Lifecycle.Path` | packages/shared/src/assayer-lifecycle.ts:344-421 | the plan for a move: empty when already there, else the first of the shortest routes under the waypoint rules, and missing only when none exists |
| `Lifecycle.FirstBarred` | packages/shared/src/assayer-lifecycle.ts:464-485 | the first barred state strictly inside a route, or none when nothing inside is barred |
| `Lifecycle.BlockedBy` | packages/shared/src/assayer-lifecycle.ts:444-485 | silent when there is a plan; otherwise silent exactly when the states are not connected at all; else names the first barred state of the first of the shortest real routes (off the inbound-only shortcut when there is one), and a never-a-waypoint state whenever some route avoids that shortcut |
| `Lifecycle.PlansExactly` | packages/shared/src/assayer-lifecycle.ts:22-421 | on the real map, for every two different states, a plan exists exactly for the destinations listed per starting state |
| `Lifecycle.RealPlan` | packages/shared/src/assayer-lifecycle.ts:22-421 | the planner on the real map returns exactly the listed steps, pair by pair, or none |
| `Lifecycle.DecisionsAreSingleMoves` | packages/shared/src/assayer-lifecycle.ts:286-374 | on the real map a plan to be invited, activated, suspended, resigned or dismissed exists exactly where it is a single move |
| `Lifecycle.AllButSuspendedCanBeArchived` | packages/shared/src/assayer-lifecycle.ts:308-340 | on the real map every file can be closed by a plan, except exactly a suspended one |
| `Lifecycle.WhyInvitedIsNotActivated` | packages/shared/src/assayer-lifecycle.ts:458-485 | on the real map the move from invited to active is refused because of the final approval, not because of the inactive shortcut |
| `Lifecycle.WhyInvitedIsNotSuspended` | packages/shared/src/assayer-lifecycle.ts:423-442 | the move from invited to suspended is refused because of the activation |
| `Verhoeff.TableD` | packages/shared/src/identity-validation.ts:62-73 | the multiplication table is the dihedral group of the pentagon |
| `Verhoeff.TableP` | packages/shared/src/identity-validation.ts:75-84 | row i mod 8 of the permutation table is one permutation applied i times, for every i |
| `Verhoeff.MulAssociates` | packages/shared/src/identity-validation.ts:62-73 | the product is associative |
| `Verhoeff.Twisted` | packages/shared/src/identity-validation.ts:75-84 | the permutation never lets two different digits commute across adjacent positions |
| `Verhoeff.VerhoeffValidates` | packages/shared/src/identity-validation.ts:89-106 | the table walk decides the group product of the permuted digits, and refuses anything but digits |
| `Verhoeff.VerhoeffCheckDigit` | packages/shared/src/identity-validation.ts:115-124 | refuses exactly what is not digits; otherwise the digit returned is the one and only final character that validates |
| `Verhoeff.LastDigitDecides` | packages/shared/src/identity-validation.ts:98-124 | a payload with a final character validates exactly when that character is the inverse of the payload's product one position on |
| `Verhoeff.CatchesSubstitution` | packages/shared/src/identity-validation.ts:98-106 | changing any one character of a validating string of any length makes it fail |
| `Verhoeff.CatchesSwap` | packages/shared/src/identity-validation.ts:98-106 | swapping any two adjacent unequal digits makes it fail |
| `Verhoeff.AadhaarCatchesSlips` | packages/shared/src/identity-validation.ts:229-257 | one wrong digit or two swapped digits never give another valid Aadhaar |
| `Verhoeff.ReferenceVector` | packages/shared/src/identity-validation.ts:98-106 | 2363 validates, the algorithm's worked example |
| `Verhoeff.KnownAadhaar` | packages/shared/src/identity-validation.ts:251-257 | 999941057058, of the issuer's test range, is a valid Aadhaar |
| `Verhoeff.NinesAreRefused` | packages/shared/src/identity-validation.ts:229-257 | twelve nines pass the checksum and are refused as a placeholder |
| `Gstin.GstinCheckDigit` | packages/shared/src/identity-validation.ts:150-164 | refuses exactly what is outside the alphabet; the right-to-left loop computes the complement of the weighted sum |
| `Gstin.CheckMoves` | packages/shared/src/identity-validation.ts:150-164 | for payloads of any length, changing one character moves the check place, modulo 36, by twice the difference of the places (2v, or 2v - 35 from 18 on) at the last character and every second one before it, and by the plain difference in between |
| `Gstin.ZerosCheckZero` | packages/shared/src/identity-validation.ts:150-164 | a payload of zeros has check character 0, which with the law above fixes every other |
| `Gstin.AlphabetExactly` | packages/shared/src/identity-validation.ts:134-158 | the characters accepted are those of the alphabet, in either case |
| `Common.UpperExactly` | packages/shared/src/identity-validation.ts:134-202 | upper case takes the twenty-six small letters to their capitals and leaves the rest |
| `Gstin.SubstitutionShows` | packages/shared/src/identity-validation.ts:134-164 | for payloads of any length a substitution leaves the check character alone exactly when it only changes case |
| `Gstin.SwapShows` | packages/shared/src/identity-validation.ts:134-164 | an adjacent swap goes unnoticed exactly for equal characters and for the pair '0' and 'Z' |
| `Gstin.GstinCatchesSubstitution` | packages/shared/src/identity-validation.ts:197-202 | every one-character change beyond case makes a valid GSTIN invalid |
| `Gstin.GstinCatchesSwap` | packages/shared/src/identity-validation.ts:35-202 | every swap of adjacent unequal characters does too, because the pattern never lets '0' meet 'Z' |
| `Gstin.ShapeIsPattern` | packages/shared/src/identity-validation.ts:35 | the shape is the pattern, position by position |
| `Gstin.SampleIsValid` | packages/shared/src/identity-validation.ts:226-228 | 27AAPFU0939F1ZV is valid |
| `Tds194j.RoundDifference` | packages/shared/src/billing-money-rules.ts:30-37 | subtracting what is already withheld before or after rounding gives the same floored figure |
| `Tds194j.RoundExactly` | packages/shared/src/billing-money-rules.ts:30-37 | rounding gives n exactly from n - 1/2 to below n + 1/2, and is odd |
| `Tds194j.TaxExactly` | packages/shared/src/billing-money-rules.ts:159-176 | the tax on a year is the nearest paisa to the fees times the rate in hundredths |
| `Tds194j.DeductionValue` | packages/shared/src/billing-money-rules.ts:159-176 | one deduction in whole paise: nothing up to the threshold, then the year's rounded tax less what was withheld, floored at nothing and capped at the fee, with its label |
| `Tds194j.DeductionOfAnyFigures` | packages/shared/src/billing-money-rules.ts:159-176 | the same for any figures: negative ones count for nothing, others to the nearest paisa |
| `Tds194j.HalfAPaisaGoesUp` | packages/shared/src/billing-money-rules.ts:30-176 | a deduction that comes to half a paisa goes up |
| `Tds194j.NoThresholdValue` | packages/shared/src/billing-money-rules.ts:159-176 | without a threshold the rate applies to the payable alone and at 100% or less stays within it |
| `Tds194j.YearClosedForm` | packages/shared/src/billing-money-rules.ts:159-176 | for any sequence of payables, any one rate and positive threshold: nothing withheld until the year passes the threshold, then the lesser of fees since the crossing and the rounded tax on the year; exactly one payable is CROSSED |
| `Tds194j.YearWithinHalfAPaisa` | packages/shared/src/billing-money-rules.ts:159-176 | past the threshold a year's withholding is within half a paisa of the rate times the fees, unless the fees since the crossing are less and all of them go |
| `Tds194j.BookingTotal` | packages/shared/src/billing-money-rules.ts:159-176 | what one booking makes of the live total from any state whose deductions are sane |
| `Tds194j.HistoryIsSane` | packages/shared/src/billing-money-rules.ts:159-176 | over any history of bookings, voids and rate changes each deduction lies in [0, gross] and live TDS never exceeds live fees |
| `Tds194j.BookingNeverOverWithholds` | packages/shared/src/billing-money-rules.ts:159-176 | a booking never takes the live total above the larger of what was withheld and the tax due on the live year, nor lowers it |
| `BranchRows.StatusFollowsContent` | packages/shared/src/branch-import.ts:159-203 | the recomputed status depends on what the row says and not on the status it carried |
| `BranchRows.StatusExactly` | packages/shared/src/branch-import.ts:173-198 | needs details exactly when SOL ID, name or state is blank, the bank is another, or the rejected state and district still stand (case and outer blanks aside); else ready exactly when placed by hand or known to at most 250 m |
| `BranchRows.MissingExactly` | packages/shared/src/branch-import.ts:159-167 | the fields reported missing are the blank ones of the five required |
| `BranchRows.TrimExactly` | packages/shared/src/branch-import.ts:281 | trimming takes off the blanks at both ends and nothing else |
| `BranchImport.EditTexts` | packages/shared/src/branch-import.ts:277-299 | the field loop applies trimmed texts in order and stops at the first refusal |
| `BranchImport.ApplyToRow` | packages/shared/src/branch-import.ts:272-327 | one stored row's verdict, and what its edit does to the stale placements |
| `BranchImport.ApplyBranchDecisions` | packages/shared/src/branch-import.ts:254-330 | the four results are those of the row verdicts, in file order, for any decisions |
| `BranchImport.MovedExactly` | packages/shared/src/branch-import.ts:265-313 | with distinct row numbers, a committed row is listed as moved exactly when its state, district, address or pincode differs from the stored one and no good pin came with the edit |
| `BranchImport.AcceptedExactly` | packages/shared/src/branch-import.ts:143-153 | an edit goes through exactly when every typed value is text of at most 50, 255, 100, 100, 2000 and 6 characters once trimmed, a pincode blank or well formed, and the pin absent or whole and plausible |
| `BranchImport.RefusedTruly` | packages/shared/src/branch-import.ts:277-318 | a row whose edit is refused is left, under its number and SOL ID, for a reason true of the edit |
| `BranchImport.RemovedExactly` | packages/shared/src/branch-import.ts:266-269 | a row is noted as removed exactly when the decisions exclude it |
| `BranchImport.WrittenExactly` | packages/shared/src/branch-import.ts:188-233 | a row not removed whose edit goes through is written exactly when named, of the right bank and in a recognised place, and under `ready_only` placed by hand or known to at most 250 m; if it is left, the reason given is true of it |
| `BranchImport.NoTampering` | packages/shared/src/branch-import.ts:230-330 | whatever the decisions say, a committed row differs from the stored one only in trimmed in-limit texts of the six fields, a pincode well formed or blank, and a plausible pin recorded as manual at 5 m; status recomputed, no critical mismatch, no unresolved geography |
| `BranchImport.NothingElseIsWritten` | packages/shared/src/branch-import.ts:254-330 | every row a commit writes is a stored row, untampered with |
| `BranchImport.EveryRowLandsOnce` | packages/shared/src/branch-import.ts:254-330 | every stored row lands in exactly one of written, removed and left, and each list keeps file order |
| `BranchImport.ReadyOnlyIsSome` | packages/shared/src/branch-import.ts:230-233 | what `ready_only` commits is a subsequence of what `all_valid` commits |
| `BranchImport.DiffOneRow` | packages/shared/src/branch-import.ts:350-361 | the difference of two rows, field by field, with a pin only when one was placed by hand |
| `BranchImport.DiffBranchDecisions` | packages/shared/src/branch-import.ts:336-365 | the decisions the screen sends: removals and differences, row by row |
| `BranchImport.TextsRoundTrip` | packages/shared/src/branch-import.ts:277-355 | sending text differences reproduces the screen exactly when every changed text is trimmed, in limit and, for a pincode, well formed |
| `BranchImport.RowRoundTrip` | packages/shared/src/branch-import.ts:272-361 | one row's decisions bring the stored row to the screen's exactly when it is expressible |
| `BranchImport.RoundTrip` | packages/shared/src/branch-import.ts:254-365 | applying the screen's decisions commits exactly the screen's rows, status recomputed, filtered by mode |
| `Calendar.DayFromYearIsFormula` | packages/shared/src/periodic-checks.ts:123-132 | counting years from 1970 agrees with the day-number formula of section 21.4.1.3 of ECMA-262, before and after 1970 |
| `Calendar.DayNumberIsCivil` | packages/shared/src/periodic-checks.ts:123-132 | every date has the day number of the closed formula over years that begin in March |
| `Calendar.Rule.DateOf` | packages/shared/src/periodic-checks.ts:123-127 | every day number has a date that is a real date and has that number |
| `Calendar.Rule.DateIsUnique` | packages/shared/src/periodic-checks.ts:123-127 | and only one |
| `Calendar.Rule.OrderIsChronological` | packages/shared/src/periodic-checks.ts:123-127 | calendar order is the order of day numbers |
| `Calendar.Rule.DayZero` | packages/shared/src/periodic-checks.ts:133-142 | day 0 of the next month is the last day of this one |
| `Calendar.Rule.AddMonths` | packages/shared/src/periodic-checks.ts:133-142 | lands exactly so many months on, on the same day or that month's last |
| `Calendar.Rule.AddMonthsMonotone` | packages/shared/src/periodic-checks.ts:133-142 | a later date and more months never land earlier |
| `Calendar.UtcDate.SetUtcDate` | packages/shared/src/periodic-checks.ts:128-142 | moves the object by the difference in days, into other months too |
| `Calendar.UtcDate.SetUtcMonth` | packages/shared/src/periodic-checks.ts:133-142 | moves the object to the same day of a month counted across years |
| `Calendar.MoveDays` | packages/shared/src/periodic-checks.ts:128-132 | setting the day of the month adds exactly that many days |
| `Calendar.MoveMonths` | packages/shared/src/periodic-checks.ts:133-142 | going to the first, moving the month and clamping the day is adding months |
| `PeriodicChecks.ParseOfKey` | packages/shared/src/periodic-checks.ts:123-127 | a key reads back as the date it was made from |
| `PeriodicChecks.KeyShape` | packages/shared/src/periodic-checks.ts:125-127 | hyphens after the year and the month, whose numbers are where they are read from |
| `PeriodicChecks.KeyOrder` | packages/shared/src/periodic-checks.ts:123-127 | comparing keys as strings compares days |
| `PeriodicChecks.PrintedIsKey` | packages/shared/src/periodic-checks.ts:125-127 | a printed date is a key exactly in the years 1000 to 9999 |
| `PeriodicChecks.AddDaysToDateKey` | packages/shared/src/periodic-checks.ts:128-132 | prints the day so many days on, in any year; the result is a key exactly in the years 1000 to 9999 |
| `PeriodicChecks.AddMonthsToDateKey` | packages/shared/src/periodic-checks.ts:133-142 | prints the date so many months on, in any year; the result is a key exactly in the years 1000 to 9999 |
| `PeriodicChecks.AddDaysAdditive` | packages/shared/src/periodic-checks.ts:128-132 | adding days is additive |
| `PeriodicChecks.AddDaysInverts` | packages/shared/src/periodic-checks.ts:128-132 | and undone by as many days back |
| `PeriodicChecks.AddMonthsLands` | packages/shared/src/periodic-checks.ts:133-142 | the key lands in the month meant, the day clamped only to that month's last |
| `PeriodicChecks.AddMonthsKeepsOrder` | packages/shared/src/periodic-checks.ts:133-142 | later keys and more months never give an earlier key, in string order |
| `PeriodicChecks.RecheckStanding` | packages/shared/src/periodic-checks.ts:151-176 | the standing computed by string comparison of keys is the one defined on days: due day, block day, status and reason |
| `PeriodicChecks.StatusOnlyAdvances` | packages/shared/src/periodic-checks.ts:170-174 | as today advances the status only moves OK, DUE_SOON, DUE, BLOCKED |
| `PeriodicChecks.StatusBegins` | packages/shared/src/periodic-checks.ts:169-174 | BLOCKED begins exactly after the grace days, DUE exactly on the due day, DUE_SOON exactly so many days before |
| `PeriodicChecks.ScheduledExactly` | packages/shared/src/periodic-checks.ts:160-163 | a check is due on the first-round day, or at least one month after the last in the month meant, on the same day or that month's last |
| `PeriodicChecks.DueExactly` | packages/shared/src/periodic-checks.ts:164-168 | an identity expiry after the last check brings the due day forward to it; nothing else does |
| `PeriodicChecks.LaterCheckNeverHurts` | packages/shared/src/periodic-checks.ts:159-174 | a later last check never gives an earlier due date or a worse status, even where an identity expiry overrides the interval |
| `IndianWords.UnderThousandText` | packages/shared/src/gst.ts:121-135 | prints the words of a number under a thousand |
| `IndianWords.IntegerText` | packages/shared/src/gst.ts:138-155 | prints the words of any integer, crores recursively, lakh and thousand groups under a hundred |
| `IndianWords.AmountText` | packages/shared/src/gst.ts:165-175 | prints the words of any amount: its sign, whole rupees and nearest paise, or the fixed line when it is not finite |
| `IndianWords.HearInteger` | packages/shared/src/gst.ts:138-155 | a word-by-word reader recovers the integer, through nested crores |
| `IndianWords.LineIsUnderstood` | packages/shared/src/gst.ts:157-175 | the reader recovers sign, rupees and paise of every line from its words |
| `IndianWords.PhraseTellsWords` | packages/shared/src/gst.ts:114-135 | a printed phrase determines its words |
| `IndianWords.SameTextExactly` | packages/shared/src/gst.ts:165-175 | two amounts print the same text exactly when sign, whole rupees and nearest paise agree |
| `IndianWords.NearestExactly` | packages/shared/src/gst.ts:171 | the paise printed are the nearest to the fraction, half up |
| `IndianWords.DocumentedLine` | packages/shared/src/gst.ts:157-164 | the documented example, word by word |
| `IndianWords.DocumentedSpelling` | packages/shared/src/gst.ts:114-175 | how the words of that example, and of the other scales, are spelled |
| `IndianWords.DifferentAmountsDifferentText` | packages/shared/src/gst.ts:157-175 | two different whole-paise amounts never print the same text |
| `IndianWords.HundredPaise` | packages/shared/src/gst.ts:170-174 | a hundred paise are printed exactly from 99.5 paise on |
| `Keyset.NewestFirst` | packages/backend/scripts/test-keyset-plan.ts:37 | the feed runs from the newest row to the oldest, higher ids first within an instant |
| `Keyset.QueriesAgree` | packages/backend/scripts/test-keyset-plan.ts:53-61 | the tuple and the disjunctive query return the same page for every table, cursor and limit |
| `Keyset.KeysetIsOffset` | packages/backend/scripts/test-keyset-plan.ts:53-64 | with row k as an exact cursor both return what OFFSET k + 1 returns |
| `Keyset.PagesAreTheFeed` | packages/backend/scripts/test-keyset-plan.ts:37-61 | chaining each page's last row reads the feed with no gap or repeat, whatever changes at or ahead of the cursor meanwhile |
| `Keyset.PagesFromTheTop` | packages/backend/scripts/test-keyset-plan.ts:37-64 | from the first page on, n pages are the first n x limit rows of the feed |
| `Keyset.InsertedAhead` | packages/backend/scripts/test-keyset-plan.ts:53-61 | rows inserted at or ahead of the cursor change no later page |
| `Keyset.IsoCursorIsOffset` | packages/backend/scripts/test-keyset-plan.ts:48-64 | the script's truncated cursor agrees with OFFSET exactly when no later row falls in the cut-off part of the cursor's millisecond |
| `Keyset.IsoCursorCanSkip` | packages/backend/scripts/test-keyset-plan.ts:48-64 | two rows of one millisecond for which it does not |
| `Reconcile.RowsForCount` | packages/backend/scripts/test-keyset-plan.ts:90-99 | query A repeats a selected assignment once per matching row on its surviving leg, and shows no other |
| `Reconcile.SameAssignments` | packages/backend/scripts/test-keyset-plan.ts:90-118 | queries A and B select the same assignments for all tables |
| `Reconcile.ListsTheUnreconciled` | packages/backend/scripts/test-keyset-plan.ts:90-118 | what they list are the assignments completed since the day asked for that lack a billing entry or a fee payable |
| `Reconcile.SameBags` | packages/backend/scripts/test-keyset-plan.ts:90-118 | they agree as bags exactly when each selected assignment has at most one matching row per leg |
| `Approval.OpenQuestionAsker` | packages/shared/src/onboarding-approval.ts:112-119 | names a person exactly when their question is the latest and has not been answered |
| `Approval.ApprovalPreparers` | packages/shared/src/onboarding-approval.ts:92-119 | a person is in the set exactly when they submitted, or answered at an index before which the open question, as the other loop finds it in the events up to there, was not theirs |
| `Approval.PreparersOnlyGrow` | packages/shared/src/onboarding-approval.ts:79-104 | nobody leaves the set as the log grows |
| `Approval.MayDecideExactly` | packages/shared/src/onboarding-approval.ts:79-119 | a person may decide exactly when they submitted nothing and each of their answers has a question of their own standing open before it |

## Left out

- NameMatch.CompareNames: takes names as lists of words. Reducing a raw name to its words (relation prefixes, honorifics, punctuation) is regular-expression work and is not modelled. The exact test compares sorted, joined words, which is equality as bags because words hold no blanks.
- Onboarding steps, reopening, who may transition and the stamped reasons around the lifecycle.
- Trimming and the type test before the Aadhaar and GSTIN rules, and upper case outside ASCII.
- PAN, IFSC, bank account, phone and SMS rules: each is settled by one pattern.
- Binary floating-point noise in money: figures are exact, rounded half away from zero to whole paise. Not-a-number inputs are not modelled.
- Financial-year labels, invoice numbers and payout-destination messages.
- How the server gathers the year's figures for a payable; the model's ledger feeds each booking the live totals before it.
- Upper case outside ASCII when a branch row's geography is compared; absent and empty texts are one value.
- The wording of notes on rows not written, kept as reasons; the review's summary counters; whatever an edit holds beyond the six fields and a pin, which the source never reads.
- PeriodicChecks.AddDaysToDateKey: keys are taken to name real dates, and the limits of the language's time values (about 270,000 years each way) are not modelled.
- PeriodicChecks.AddMonthsToDateKey: the same.
- PeriodicChecks.RecheckStanding: asks that the due, reminder and block days lie in the years 1000 to 9999, because outside them the source compares strings that are not keys.
- Blockers on assigning work, labels and default settings of the periodic checks.
- GST state-code lookups.
- Connecting, seeding, `EXPLAIN` and timing in the script; tables hold the rows the feed's WHERE clause selects, ids are compared as integers, and the order of ties in the reconciliation listing is not fixed by either query.
- Length rules for the text of an approval event.
- Screens, routing, bootstrap, background jobs and the other rule files, which would only add easy members.
