# Public-works kiosk dashboard: display rules

A Dafny model of the display rules of a kiosk dashboard that shows a
municipality's public works (obras). Two screens are modelled, plus a photo
picker:

- the rotating panel (`src/App.tsx`): raw records from the data service are
  normalised into works, one work is shown at a time and a timer advances to
  the next one, dot buttons jump to a work, each work gets a deadline badge
  (completed, late, due soon, on schedule), and a summary shows the number of
  works, the total invested and a bar chart of works per region;
- the paged board (`src/App4.tsx`): ten works per page, a page timer and an
  item timer (both with no guard against an empty list), a countdown line
  for the current work, and a chart coloured from a six-colour palette;
- the board-photo picker (`src/FotoPainel.tsx`): for one work, the first
  photo of each site diary whose name marks it as a photo of the site board,
  and the one from the most recent diary.

Modules, one per concern:

- `Wrappers` (`wrappers.dfy`): `Option`.
- `Text` (`text.dfy`): printing a non-negative integer, `toLowerCase`,
  `includes`, `endsWith`.
- `Slices` (`slices.dfy`): `Array.prototype.slice`.
- `Deadline` (`deadline.dfy`): the badge and the countdown line.
- `Works` (`works.dfy`): records, normalisation, totals, count per region,
  chart colours.
- `Carousel` (`carousel.dfy`): the rotating panel, a class whose `Tick` and
  `Select` stand for the timer and the dot buttons.
- `Paging` (`paging.dfy`): the paged board, a class with `TickItem` and
  `TickPage`. An index is a JavaScript number that may be NaN.
- `PanelPhoto` (`panel_photo.dfy`): the photo filter and the choice.

Timers become explicit method calls. The day count of a deadline is an
input, as is a diary's date (an integer key, larger meaning later). Money
and progress are `real`.

## Model

| member | source | states |
|---|---|---|
| `Text.NatToDecimal` | src/App.tsx:232 | The printed day count is a non-empty string of decimal digits with no leading zero, a single digit exactly for numbers below ten |
| `Text.DecimalRoundTrip` | src/App.tsx:227-237 | Reading the printed digits back gives the number, so the text identifies the count |
| `Text.NatToDecimalInjective` | src/App.tsx:232 | Two different day counts never print the same text |
| `Text.Lower` | src/FotoPainel.tsx:48 | Lower-casing keeps the length and leaves no upper-case letter; each upper-case letter becomes the lower-case letter at the same alphabet position, every other character is kept |
| `Text.LowerIdempotent` | src/FotoPainel.tsx:48-49 | Lower-casing twice is lower-casing once (used by `PanelPhotoIgnoresCase`) |
| `Text.Contains` | src/FotoPainel.tsx:48 | `includes` holds exactly when the searched text occurs at some position of the string |
| `Text.EndsWithIsSuffix` | src/FotoPainel.tsx:49 | `endsWith` holds exactly when the string is some text followed by the suffix |
| `Slices.Slice` | src/App4.tsx:123 | A slice is a contiguous run of the list; with non-negative bounds it is the run between the bounds clamped to the length, and never longer than `end - start` |
| `Deadline.ColourClass` | src/App.tsx:219-241 | Each badge colour is a Tailwind class of the form "bg-…-500" |
| `Deadline.ColourClassInjective` | src/App.tsx:219-241 | The four badge colours get four different classes |
| `Deadline.StatusOf` | src/App.tsx:219-241 | Green/check exactly when progress is 1; otherwise red exactly when days < 0, yellow exactly when 0 <= days <= 30, blue/calendar exactly when days > 30; late text "Atrasado N dias" with N = -days, the others "N dias restantes" |
| `Deadline.StatusShowsDays` | src/App.tsx:226-240 | Every badge of an unfinished work shows its exact signed day count (read back from the text); the completed badge shows none |
| `Deadline.CountdownMessage` | src/App4.tsx:78-79 | The line reads "Prazo expirado" exactly when the day count is not a positive number (zero, negative, NaN); otherwise it shows that day count |
| `Deadline.CountdownVersusStatus` | src/App4.tsx:79 | For an unfinished work the countdown line equals the badge text when days > 0, and differs from it on day 0 |
| `Works.Normalize` | src/App.tsx:100-111 | Every output field is the record's value when truthy, else its default ("Obra " + numero, Desconhecida, 0, Não informado, 0, Em andamento, Local não especificado); id and dates pass through; the result has all text fields filled |
| `Works.NormalizeKeepsWellFormed` | src/App.tsx:100-111 | A work whose fields are all filled in comes back unchanged, so normalising a normalised work changes nothing |
| `Works.NormalizeAll` | src/App.tsx:100 | The mapped list has one work per record, in the same order |
| `Works.TotalInvested` | src/App.tsx:268 | With no negative contract value the total is not negative; with all values zero it is zero |
| `Works.TotalInvestedAppend` | src/App.tsx:268 | The total invested of two lists joined is the sum of their totals |
| `Works.TotalInvestedIsSum` | src/App.tsx:267-268 | Each work contributes its contract value exactly once to the total |
| `Works.CountIn` | src/App.tsx:125 | A region's count never exceeds the number of works |
| `Works.CountInPositive` | src/App.tsx:124-127 | A region's count is positive exactly when some work lies in that region |
| `Works.CountInAppend` | src/App.tsx:124-127 | Counting a region over two lists joined gives the sum of the two counts |
| `Works.RegionsOf` | src/App.tsx:130 | The chart labels are the regions present, each once, with no other label |
| `Works.CountByRegion` | src/App.tsx:124-127 | The counting loop ends with exactly the regions present as keys, in first-appearance order, each mapped to its number of works |
| `Works.RegionCountsSum` | src/App4.tsx:86-89 | The region counts add up to the number of works |
| `Works.ChartColours` | src/App4.tsx:96-97 | With k regions the chart is handed min(k, 6) colours, the i-th being the i-th palette colour |
| `Carousel.Next` | src/App.tsx:204 | The successor index is within the list, one more than the current one or 0 after the last |
| `Carousel.FullCycleReturns` | src/App.tsx:201-205 | n ticks over n works return the panel to the work it started from |
| `Carousel.CycleShowsEveryWork` | src/App.tsx:201-205 | From any start, every work is shown within n ticks |
| `Carousel.Rotation.constructor` | src/App.tsx:78-80 | The panel starts with no works and index 0 |
| `Carousel.Rotation.Load` | src/App.tsx:112 | Loading sets the works and leaves the index at the first one |
| `Carousel.Rotation.Tick` | src/App.tsx:201-204 | A tick does nothing on an empty list and otherwise moves to the next index modulo n; the index stays valid |
| `Carousel.Rotation.Select` | src/App.tsx:413-416 | A dot click sets the index to that dot's position, always a valid index |
| `Carousel.Rotation.Current` | src/App.tsx:258-262 | No work is shown exactly when the list is empty; otherwise the work at the index |
| `Paging.PageCount` | src/App4.tsx:68 | The page count is the fewest pages of ten that hold all the works |
| `Paging.Advance` | src/App4.tsx:61 | The next index is a number below n exactly when the old one was a number and n > 0; a zero modulus gives NaN, and NaN stays NaN |
| `Paging.PageAt` | src/App4.tsx:123 | Page p holds at most ten works: the works from p*10 to (p+1)*10 in original order, none past the last page |
| `Paging.PagesCoverAll` | src/App4.tsx:123 | The pages read in order give back the whole list: each work on exactly one page |
| `Paging.Board.constructor` | src/App4.tsx:37-40 | The board starts with no works and both indices 0 |
| `Paging.Board.Load` | src/App4.tsx:56 | Loading sets the works and keeps both indices |
| `Paging.Board.TickItem` | src/App4.tsx:59-64 | The item timer advances the current index modulo the list length, turning it into NaN on an empty list |
| `Paging.Board.TickPage` | src/App4.tsx:66-71 | The page timer advances the page modulo the page count, turning it into NaN when there are no pages |
| `Paging.Board.ShownPage` | src/App4.tsx:123 | The listed works are the current page's, at most ten, none for a NaN page, some whenever the list is not empty |
| `Paging.Board.CurrentWork` | src/App4.tsx:76 | There is a current work exactly when the index is a number and the list is not empty |
| `Paging.Board.Countdown` | src/App4.tsx:73-82 | The countdown line is the message for the current work's day count, "Prazo expirado" when there is no current work |
| `PanelPhoto.FindWork` | src/FotoPainel.tsx:38-39 | The work found is the first with the requested id; none exactly when no work has it |
| `PanelPhoto.PanelPhotoMeans` | src/FotoPainel.tsx:41-50 | A photo qualifies exactly when its lower-cased name contains "painel" and ends in ".jpg", ".jpeg" or ".png" |
| `PanelPhoto.PanelPhotoIgnoresCase` | src/FotoPainel.tsx:48-49 | A name and its lower-cased form qualify alike: upper-case letters never matter |
| `PanelPhoto.PanelPhotoExamples` | src/FotoPainel.tsx:46-50 | "Foto_PAINEL.JPG" qualifies; "painel.gif" and "fachada.png" do not |
| `PanelPhoto.PanelPhotos` | src/FotoPainel.tsx:46-50 | The filter keeps exactly the qualifying photos of the diary |
| `PanelPhoto.FirstPanelPhotoIsFirst` | src/FotoPainel.tsx:51-52 | `FirstPanelPhoto`: a diary yields a photo exactly when it has a qualifying one, and it is the first qualifying photo in its list |
| `PanelPhoto.DiaryCandidatesIndexed` | src/FotoPainel.tsx:44-54 | `DiaryCandidates`: the j-th candidate comes from the j-th diary that has a qualifying photo, at strictly increasing positions, paired with that diary's first qualifying photo; every such diary gives one candidate, the others none |
| `PanelPhoto.DiaryCandidatesMembership` | src/FotoPainel.tsx:45-54 | There are no more candidates than diaries, and a value is a candidate exactly when some diary paired with its first qualifying photo gives it |
| `PanelPhoto.CandidatesFollowDiaries` | src/FotoPainel.tsx:44-55 | `Candidates`: collecting lot by lot is collecting over all the lots' diaries in lot order and, within a lot, diary order |
| `PanelPhoto.CandidatesAreBoardPhotos` | src/FotoPainel.tsx:45-53 | Every candidate of a work carries a qualifying photo |
| `PanelPhoto.CollectCandidates` | src/FotoPainel.tsx:42-55 | The nested loops collect exactly the candidates of the work's lots and diaries, in that order |
| `PanelPhoto.InsertByDate` | src/FotoPainel.tsx:59 | Insertion keeps the list ordered newest first and adds exactly one element |
| `PanelPhoto.SortNewestFirst` | src/FotoPainel.tsx:59 | The sort returns a permutation of the candidates ordered newest first |
| `PanelPhoto.SortHeadIsFirstNewest` | src/FotoPainel.tsx:59-60 | Because the sort is stable, its first element is the newest candidate, and the earliest collected one among equal dates |
| `PanelPhoto.NewestCandidate` | src/FotoPainel.tsx:59-60 | The chosen candidate has the latest date, and every candidate collected before it is strictly older |
| `PanelPhoto.PanelPhotoFor` | src/FotoPainel.tsx:38-60 | A chosen photo implies that a work with the id was found and is one of that work's candidates |
| `PanelPhoto.PanelPhotoForIsBoardPhoto` | src/FotoPainel.tsx:46-60 | The chosen photo is always a qualifying board photo |
| `PanelPhoto.ChoosePanelPhoto` | src/FotoPainel.tsx:38-60 | The picker returns what finding the work, collecting, sorting newest first and taking the head give |
| `PanelPhoto.PanelPhotoChoice` | src/FotoPainel.tsx:38-60 | No photo exactly when no work has the id or it has no candidate; otherwise the first newest candidate of the first matching work |

## Left out

- api/graphql.js, the forwarding proxy, is not part of this model: it only
  relays one request over the network. (As written it forwards `{ query }`
  and answers 200 or 500; it checks no method, content type or `data` field.)
- `fetchObras`, every `fetch` and the error screens that follow a failed
  request: the records and diaries are inputs of the model.
- The text of the data-service queries and the second query that turns the
  chosen diary and photo into a URL: the model ends at the chosen candidate.
- Turning dates into day counts (`calcularDiasRestantes`, the countdown's
  date arithmetic) and every date or time formatting: day counts and diary
  dates are inputs. A deadline that is not a valid date is modelled only on
  the paged board (as a missing day count); on the rotating panel a NaN day
  count would give a blue "NaN dias restantes" badge, which the integer input
  cannot express.
- Deadline.StatusOf: `progress` is a `real`, so floating-point comparison
  of a progress that is almost but not exactly 1 is not modelled.
- Works.TotalInvestedAppend: sums are exact; floating-point rounding of
  the JavaScript sum is not modelled.
- Works.Normalize: `NaN` numbers (falsy in JavaScript) are not modelled, and
  `numero` is given as the text the template prints for it.
- Text.Lower: only the ASCII letters A-Z are lowered; Unicode case mapping
  of other characters is not modelled.
- Works.CountByRegion: JavaScript lists integer-like keys ("1", "2") before
  the others in `Object.keys`; the model keeps plain first-appearance order.
  The accumulator is a plain `{}`, so a region named after an inherited
  property is miscounted in JavaScript ("constructor" starts from a function
  and ends up a string; "__proto__" never becomes a key); the model treats
  every region name as an ordinary key.
- Works.ChartColours: only the colour list handed to the chart is modelled;
  Chart.js cycles a shorter colour list, so in the drawn chart the regions
  past the sixth reuse the palette from its start.
- The record mapping of the paged board (src/App4.tsx:43-55) is not modelled:
  it copies the fields without defaults and computes the progress as
  `parseFloat` of the percentage with its decimal comma replaced, divided by
  100. The board's works are an input of `Paging.Board.Load`.
- PanelPhoto.ChoosePanelPhoto: the candidates are not sorted in place; the
  method picks the first newest candidate and is proved equal to the head of
  a stable newest-first sort. Stability is stated only through that head.
  Invalid diary dates, for which the comparator returns NaN, are not
  modelled; nor is the `try`/`catch` that answers null when a record lacks
  lots, diaries or photos.
- `totalObras` is the length of the list itself and needs no member of its own.
- The 30-minute page reload, the clock in the header, the scroll centring of
  the list, the progress percentage, all layout and chart options.
