# Pricing extraction of the model-page scraper

This project models the extraction engine of `scrape_all_models.py`. The
scraper drives a headless browser over a catalog of model pages. For each page
it reads an accessibility snapshot: YAML-like text in which a heading line looks
like `- generic [ref=e42]: Pricing`. The engine reduces that text to a list of
pricing records `{unit_type, price}`:

1. Locate the pricing section: the first `Pricing` heading whose next five lines
   contain "Pricing is based on".
2. Bound the section. It runs up to the first next-section heading (`Modalities`,
   `Endpoints`, `Features`, `Snapshots`, `Rate limits`, `Tools`), searched from
   ten lines past the start, and never more than 150 lines.
3. Classify the section into one of six layouts from the phrases it contains.
4. Run the scanner of that layout.

There are six scanners:

- **Token prices.** `Cached input` / `Input` / `Output` per million tokens, with
  `Audio ` / `Image ` prefixes.
- **Image prices.** Quality × resolution.
- **Use-case prices.** Transcription, speech and so on.
- **Per-second video prices.**
- **A lone `Cost` price.**
- **A fallback** of label prices, then `Free`.

Every scanner except the fallback skips what follows a "Quick comparison"
marker, which lists other models' prices. The token scanner resumes at the next
token-kind or `Image generation` heading, and the image scanner at an
`Image generation` or `Modalities` heading past the section's fifth line. The
use-case, per-second and cost-only scanners never resume. The fallback scanner
does no skipping at all. The small helpers the scraper uses to read the browser CLI's
output are modelled too:

- the snapshot path;
- the screenshot path;
- the model name from a URL;
- a file-system-safe name.

Layout of the Dafny modules (one file each):

| module | file | what it holds |
|---|---|---|
| `Text` | `text.dfy` | Python string operations used by the source (`strip`, `in`, `split('\n')`, `'\n'.join`, `rstrip(c)`), leftmost/rightmost search |
| `Decimal` | `decimal.dfy` | digit strings and their values, the `%.10f`-and-strip rendering of a price divided by a million, the `str(float(x))` rendering |
| `Patterns` | `patterns.dfy` | the regular expressions of the engine as string predicates: heading marker, `re.match`/`re.search` of a heading, `\$([0-9]+(?:\.[0-9]+)?)`, `"?(.+?)"?$` |
| `Records` | `records.dfy` | pricing records, "append if the unit type is new", the resulting deduplication |
| `Section` | `section.dfy` | `find_pricing_section`, the section bound, the layout classifier |
| `Scan` | `scan.dfy` | pieces every scanner uses: the comparison-block state, the label search, the price on the next line |
| `TokenScan`, `ImageScan`, `UseCaseScan`, `VideoScan`, `CostScan`, `FallbackScan` | `token.dfy`, `image.dfy`, `usecase.dfy`, `video.dfy`, `cost.dfy`, `fallback.dfy` | the six layout branches |
| `Extract` | `extract.dfy` | `extract_pricing_from_snapshot` as a whole |
| `Paths` | `cli.dfy` | `get_snapshot_path`, `get_screenshot_path`, `model_name_from_url`, `safe_filename` |

Each loop of the source is a `method` with the same loop: `FindPricingSection`,
the section-end loop, and one scanner per branch. Every such method is proved
equal to a specification function. `TokenScan`, `ImageScan` and `UseCaseScan`
use a fold of a per-line context (prefix or quality or use case, plus the
comparison flag), the record each line offers, and the collected offers.
`VideoScan` and `CostScan` use the first qualifying line. The lemmas then state
what the source promises about those functions. These include:

- the iff characterisations of the comparison-block state, the prefix, the
  quality and the use case in force;
- the shape of every record;
- uniqueness of unit types where the source deduplicates;
- first-occurrence-wins;
- the exact decimal value of every rendered price: a per-million price is the
  literal on the next line (or, for use cases, on the line itself) divided by a
  million, when it has at most four decimals, and a per-unit price is the
  literal's own value.

## Model

| member | source | states |
|---|---|---|
| Section.FindPricingSection | scrape_all_models.py:112-127 | returns the first line that is a `Pricing` heading confirmed within the next five lines, or none when no line is |
| Section.ScanConfirmation | scrape_all_models.py:124-126 | true exactly when one of the raw lines `i+1 .. min(i+6, len)-1` contains "Pricing is based on" |
| Section.PricingStart | scrape_all_models.py:119-127 | the index found is a confirmed pricing heading and no earlier line is one; none means no line is |
| Section.PricingStartFromSpec | scrape_all_models.py:119-127 | the search from line `i` finds the first confirmed heading at or after `i`, and none only when there is none |
| Section.StopFrom | scrape_all_models.py:150-155 | the first next-section heading in the window, or the window's end when no line of it is one |
| Section.SectionEnd | scrape_all_models.py:148-155 | the section ends after its start, at most 150 lines on and never past the last line; ending early means a next-section heading at line 10 or later, and no such heading lies in lines 10 .. end-1 |
| Section.JoinedMentions | scrape_all_models.py:158-166 | a newline-free phrase occurs in the joined section text exactly when it occurs in one of its lines |
| Section.Classify | scrape_all_models.py:160-171 | each layout is chosen exactly when its markers are present and those of every earlier layout are absent (token headings, then `Per image`, then `Use case` with `Cost`, then `Per second`, then a `Cost` heading) |
| Extract.ExtractPricingFromSnapshot | scrape_all_models.py:130-389 | the records are those of the scanner of the classified layout over the bounded section, and none without a confirmed pricing heading |
| Extract.FindSectionEnd | scrape_all_models.py:148-156 | the loop's end index equals the section bound |
| Extract.SectionLines | scrape_all_models.py:157 | the section is the slice from the start to the bound, between 1 and 150 lines long |
| Extract.SnapshotSection | scrape_all_models.py:142-146 | there is no section exactly when the snapshot's lines hold no confirmed pricing heading |
| Extract.PricingNeedsSection | scrape_all_models.py:144-146 | a snapshot yields records only if some line is a confirmed pricing heading; with none it yields nothing |
| Extract.SectionShape | scrape_all_models.py:148-157 | the section starts with its `Pricing` heading, has at most 150 lines and holds no next-section heading from its eleventh line on |
| Extract.LayoutPricesDecimal | scrape_all_models.py:171-387 | every price any layout's scanner emits is plain decimal notation (digits, optional point, no exponent); for per-minute and per-image use-case prices only within the range where Python prints a float positionally |
| Extract.SnapshotPricesDecimal | scrape_all_models.py:130-389 | every price extracted from any snapshot is plain decimal notation, with the same range caveat for `str(float(x))` prices |
| Extract.LayoutUnits | scrape_all_models.py:171-387 | token, per-second, cost-only and fallback lists never repeat a unit type; per-second and cost-only lists hold at most one record |
| Scan.NextPrice | scrape_all_models.py:203-206 | a price is found exactly when there is a next line and it has a `$` followed by a digit; the amount is a valid literal |
| Scan.NextPriceExact | scrape_all_models.py:203-211 | the per-million rendering of the next line's literal denotes exactly that literal divided by a million when it has at most four decimals |
| Scan.PriceOnNextLine | scrape_all_models.py:203-206 | the lookup the loops make equals the next-line price |
| Scan.FirstLabel | scrape_all_models.py:200-201 | the label found is a heading of the line and no earlier label is; none when no label is |
| Scan.FindLabel | scrape_all_models.py:200-218 | the `for label ...: break` loop stops at the first label the line is a heading for |
| Scan.BlockedIff | scrape_all_models.py:191-196 | the scan is in a comparison block exactly when some earlier line opened one and neither it nor a later line ended one |
| Scan.OpenBlockStep | scrape_all_models.py:191-196 | a line that neither opens nor ends a block leaves the block state unchanged |
| Scan.ComparisonOpenedStep | scrape_all_models.py:265-266 | a comparison was opened by line `i+1` exactly when line `i` opens one or one was already open |
| Scan.OpenedIff | scrape_all_models.py:265-266 | where nothing ends a block, the scan is quiet exactly when some earlier line held "Quick comparison" |
| Scan.LatestIff | scrape_all_models.py:236-239 | the latest value set is `v` exactly when some position holds `v` and no later position sets a value |
| Scan.LatestNone | scrape_all_models.py:224-239 | nothing is in force exactly when no position set a value |
| TokenScan.ScanTokens | scrape_all_models.py:171-219 | the loop returns the deduplicated list of the records the lines offer |
| TokenScan.EnterLine | scrape_all_models.py:180-196 | the prefix and comparison updates for one line are the specified context step (subsection heading, then "Quick comparison", then a reset heading) |
| TokenScan.Offer | scrape_all_models.py:198-211 | outside a comparison block, the record of the first label heading of the line priced by the next line, with the subsection prefix |
| TokenScan.SubsectionResets | scrape_all_models.py:181-196 | every subsection heading is also a heading that ends a comparison block |
| TokenScan.StepQuiet | scrape_all_models.py:191-196 | after a line the scan is quiet exactly when the line ends no block and it opens one or the scan was quiet |
| TokenScan.QuietAfter | scrape_all_models.py:191-196 | the quiet flag after `n` marks holds exactly when some mark opened a block and no mark from it on ended one |
| TokenScan.QuietIff | scrape_all_models.py:175-196 | the scan is in a comparison block exactly when a "Quick comparison" line opened one and no later reset heading ended it |
| TokenScan.ComparisonSilent | scrape_all_models.py:198 | a line inside a comparison block offers no record |
| TokenScan.PrefixAfter | scrape_all_models.py:174-189 | the prefix after `n` marks is `p` exactly when the last subsection mark set `p`, or `p` is empty and there was none |
| TokenScan.PrefixIff | scrape_all_models.py:174-189 | the prefix in force is the one the last subsection heading set, or empty before the first |
| TokenScan.PrefixKnown | scrape_all_models.py:174-189 | the prefix is always `""`, `"Audio "` or `"Image "` |
| TokenScan.CandidateShape | scrape_all_models.py:199-211 | every offered record is a prefix plus a label with plain decimal price text |
| TokenScan.TokenPricingShape | scrape_all_models.py:207-217 | the token list never repeats a unit type, and every record is prefix plus label with a decimal price |
| TokenScan.TokenFirstWins | scrape_all_models.py:212-217 | every kept record is the first offer with its unit type |
| TokenScan.TokenCovers | scrape_all_models.py:212-217 | every unit type some line offers is in the list |
| TokenScan.CandidateExact | scrape_all_models.py:203-211 | the price a line offers is the per-million rendering of the literal on the next line, exactly that literal divided by a million for at most four decimals |
| TokenScan.TokenPricingExact | scrape_all_models.py:203-217 | every record of the token list is offered by some line and priced by the literal on the line after it, divided by a million |
| ImageScan.ScanImages | scrape_all_models.py:221-255 | the loop returns every record the lines offer, in order |
| ImageScan.EnterLine | scrape_all_models.py:230-239 | the comparison and quality updates for one line are the specified context step |
| ImageScan.Offer | scrape_all_models.py:241-254 | the resolution-and-price lookup equals the specified offer of the line |
| ImageScan.QuietBlocked | scrape_all_models.py:226-233 | the quiet flag is the comparison-block state of the gates `Quick comparison` / `Image generation`-or-`Modalities` after line 5 |
| ImageScan.QuietIff | scrape_all_models.py:226-233 | the scan is quiet exactly when a comparison block was opened and no ending heading past line 5 closed it |
| ImageScan.ComparisonSilent | scrape_all_models.py:235 | a line inside a comparison block offers no record |
| ImageScan.QualityLatest | scrape_all_models.py:236-239 | the quality in force is the latest quality read outside a comparison block |
| ImageScan.QualityIff | scrape_all_models.py:224-239 | the quality in force is `q` exactly when the last quality heading read outside a block named `q`; none exactly when no such heading came before |
| ImageScan.QualityKnown | scrape_all_models.py:237-239 | the quality in force is always one of the quality headings |
| ImageScan.QualityInForce | scrape_all_models.py:237-239 | the quality in force is one of Standard, HD, Low, Medium, High |
| ImageScan.CandidateShape | scrape_all_models.py:241-254 | every offered record is `Per Image (<quality> <resolution>)` with the literal price as written |
| ImageScan.CandidateParts | scrape_all_models.py:241-254 | an offered record needs a quality in force, a resolution heading and a price on the next line, and is built from them |
| ImageScan.RecordShaped | scrape_all_models.py:250-253 | a record built from a quality, a resolution and a literal has the image shape |
| ImageScan.ImagePricingShape | scrape_all_models.py:250-254 | every record of the image list has a quality, a resolution and a literal price |
| ImageScan.ImagePricingMembers | scrape_all_models.py:251-254 | a record is in the list exactly when some line offers it |
| UseCaseScan.ScanUseCases | scrape_all_models.py:257-300 | the loop returns every record the lines offer, in order |
| UseCaseScan.Visit | scrape_all_models.py:263-299 | the body of the loop makes the specified context step and offers the specified record |
| UseCaseScan.CostTextDenotes | scrape_all_models.py:277-293 | the price is decimal text; per minute or per image it has the literal's own value, otherwise the literal divided by a million (exactly for at most four decimals) |
| UseCaseScan.QuietOpened | scrape_all_models.py:265-266 | the quiet flag after `n` marks holds exactly when one of them opened a block |
| UseCaseScan.QuietIff | scrape_all_models.py:261-268 | the scan skips everything from the first "Quick comparison" line on |
| UseCaseScan.ComparisonSilent | scrape_all_models.py:268 | a line at or after a "Quick comparison" line offers no record |
| UseCaseScan.UseCaseKnown | scrape_all_models.py:270-272 | the use case in force is always one of the use-case headings |
| UseCaseScan.CandidateShape | scrape_all_models.py:270-298 | every offered record is named after a use case and has a decimal price |
| UseCaseScan.UseCasePricingShape | scrape_all_models.py:295-298 | every record of the use-case list is named after a use case and has a decimal price |
| UseCaseScan.Consumed | scrape_all_models.py:299 | after a record is offered no use case is in force |
| UseCaseScan.NamedSince | scrape_all_models.py:270-299 | once no use case is in force, one in force later was named by a later line |
| UseCaseScan.NoDoubleCount | scrape_all_models.py:299 | between any two records some line names a use case again |
| VideoScan.ScanVideo | scrape_all_models.py:302-327 | the loop returns the record of the first price line, or nothing |
| VideoScan.PriceLineAt | scrape_all_models.py:305-319 | the loop's test on line `i` decides the first-price-line search, and the record it builds is the specified one |
| VideoScan.VideoPricingIff | scrape_all_models.py:305-327 | at most one record; one exactly when some line is a `$<amount>` heading before any "Quick comparison" line, and then it is that of the first such line |
| VideoScan.PriceRecordShape | scrape_all_models.py:313-326 | the price is the literal as written; the unit is `Per Second` plus `(<description>)` when the previous line's heading gives one, which it does whenever it is a heading |
| VideoScan.FirstPriceLineFound | scrape_all_models.py:305-312 | the first price line found is a price line |
| VideoScan.VideoPricingLiteral | scrape_all_models.py:323-326 | every price of the list is a `$` literal as written |
| CostScan.ScanCost | scrape_all_models.py:329-359 | the loop returns the record of the first cost line, or nothing |
| CostScan.CostLineAt | scrape_all_models.py:332-342 | the loop's test on line `i` decides the first-cost-line search, and the record it builds is the specified one |
| CostScan.FirstCostLineFound | scrape_all_models.py:332-342 | the first cost line found is a cost line |
| CostScan.FirstCostLineSpec | scrape_all_models.py:332-359 | no line before the first cost line is one, and none at all when there is no first |
| CostScan.CostPricingIff | scrape_all_models.py:329-359 | at most one record; one exactly when some `Cost` heading before any "Quick comparison" line is priced by its next line |
| CostScan.CostPricingFirst | scrape_all_models.py:332-359 | the record is that of the first cost line |
| CostScan.CostRecordShape | scrape_all_models.py:355-358 | the record's unit is `Input` and its price is decimal text |
| CostScan.CostRecordExact | scrape_all_models.py:343-354 | the price is the literal divided by a million, exactly when it has at most four decimals |
| CostScan.CostPricingShape | scrape_all_models.py:355-358 | every record of the list is an `Input` price in decimal text |
| FallbackScan.ScanFallback | scrape_all_models.py:361-387 | the branch returns the label records, or the `Free` record when there are none and some line is a `Free` heading |
| FallbackScan.ScanLabels | scrape_all_models.py:364-380 | the nested loops return the deduplicated label records of all lines and labels, in order |
| FallbackScan.ScanLine | scrape_all_models.py:366-380 | the label loop of one line extends the deduplicated records by that line's offers, label by label |
| FallbackScan.ScanLabel | scrape_all_models.py:367-380 | one label: a heading for it priced by the next line adds its per-million record exactly when no record of that label is present |
| FallbackScan.RowPrefixOffers | scrape_all_models.py:366-380 | the records after the first `k` labels are the deduplicated records with the line's first `k` offers appended |
| FallbackScan.LineOffers | scrape_all_models.py:367-380 | a line offers one optional record per label, in label order |
| FallbackScan.OfferShape | scrape_all_models.py:367-380 | every record a label heading offers is named after the label and has a decimal price |
| FallbackScan.OfferExact | scrape_all_models.py:369-375 | the price a label heading offers is the per-million rendering of the literal on the next line, exactly that literal divided by a million for at most four decimals |
| FallbackScan.OfferOrigin | scrape_all_models.py:364-380 | every offer comes from a label on one of the lines |
| FallbackScan.OfferPresent | scrape_all_models.py:364-380 | the offer of each label on each line is among the offers |
| FallbackScan.LabelPricingShape | scrape_all_models.py:376-380 | no label twice, every record a price label with a decimal price |
| FallbackScan.LabelPricingExact | scrape_all_models.py:364-380 | every label record is offered by the heading for its label on some line and priced by the literal on the line after it, divided by a million |
| FallbackScan.LabelPricingEmpty | scrape_all_models.py:364-383 | no label records exactly when no label heading is priced by its next line |
| FallbackScan.FreeIff | scrape_all_models.py:382-387 | without label records, the list is `[{Input, 0}]` exactly when some line is a `Free` heading and empty otherwise |
| FallbackScan.FallbackPricingShape | scrape_all_models.py:361-387 | no unit type twice; each record is a price label with a decimal price or the zero `Input` price |
| Records.AppendIfNew | scrape_all_models.py:213-217 | the guarded append equals adding the record only when its unit type is new |
| Records.AppendPresent | scrape_all_models.py:251-254 | the unguarded append adds the record when there is one |
| Records.Emitted | scrape_all_models.py:251-254 | a present record gives a one-element list, an absent one the empty list |
| Records.FlattenSnoc | scrape_all_models.py:251-254 | collecting one more offer appends it when present |
| Records.FlattenMember | scrape_all_models.py:251-254 | every collected record was offered at some position |
| Records.FlattenHas | scrape_all_models.py:251-254 | every offered record is collected |
| Records.FlattenEmpty | scrape_all_models.py:383 | nothing is collected exactly when nothing is offered |
| Records.FirstIndex | scrape_all_models.py:213 | the index of the first record with a unit type, none before it has that type |
| Records.DedupSnoc | scrape_all_models.py:213-217 | deduplicating one more record is the guarded append |
| Records.DedupFlattenStep | scrape_all_models.py:213-217 | deduplicating one more offer is the guarded append of that offer |
| Records.DedupUnique | scrape_all_models.py:213-217 | after deduplication no unit type occurs twice |
| Records.DedupHasUnit | scrape_all_models.py:213-217 | deduplication keeps exactly the unit types that occur |
| Records.DedupFirst | scrape_all_models.py:213-217 | every kept record is the first record with its unit type |
| Records.DedupOfUnique | scrape_all_models.py:213-217 | a list with distinct unit types is left unchanged |
| Records.DedupIdempotent | scrape_all_models.py:213-217 | deduplicating twice is deduplicating once |
| Records.DedupLength | scrape_all_models.py:213-217 | deduplication never lengthens the list |
| Records.DedupSubset | scrape_all_models.py:213-217 | every kept record occurs in the input |
| Records.DedupFlattenFirst | scrape_all_models.py:212-217 | every kept record is the first offer with its unit type |
| Records.DedupFlattenCovers | scrape_all_models.py:212-217 | every offered unit type is kept |
| Records.DedupEmpty | scrape_all_models.py:383 | deduplication empties only the empty list |
| Patterns.DigitRun | scrape_all_models.py:122 | the maximal run of digits at a position (`\d+` and `[0-9]+`) |
| Patterns.DigitRunOf | scrape_all_models.py:122 | a digit string at `k` followed by no digit is the run there |
| Patterns.MarkerEndShape | scrape_all_models.py:122 | what the marker search finds is `generic [ref=e`, a digit run, `]: ` |
| Patterns.MarkerEndOf | scrape_all_models.py:122 | every marker at `k` is the one the search finds |
| Patterns.FindFromSpec | scrape_all_models.py:181 | `re.search` finds the leftmost position where the heading pattern matches, and none only when it matches nowhere |
| Patterns.MatchShape | scrape_all_models.py:181 | a match at `k` splits the line into the text before, the marker and the accepted label |
| Patterns.ShapeMatches | scrape_all_models.py:181 | a line of that shape matches at the marker, with the label as the rest |
| Patterns.HeadingIff | scrape_all_models.py:181 | a line has a heading for a name exactly when it ends with a marker followed by that name |
| Patterns.HeadingWiden | scrape_all_models.py:195 | a heading for one of some labels is a heading for any wider alternation |
| Patterns.MatchesLineIff | scrape_all_models.py:122 | `re.match` of the anchored heading holds exactly when the line is `- `, a marker and one of the labels, nothing else |
| Patterns.PriceFrom | scrape_all_models.py:205 | the leftmost `$` followed by a digit at or after `k`, none only when there is none |
| Patterns.FindNext | scrape_all_models.py:205 | the next `$` followed by a digit after a position that is not one |
| Patterns.AmountAt | scrape_all_models.py:205 | the captured literal is at the `$`, its whole part is a maximal digit run, and a fraction is taken, maximally, exactly when a point is followed by a digit |
| Patterns.PriceIn | scrape_all_models.py:205 | a literal is found exactly when some `$` is followed by a digit, and it is the one of the leftmost such `$` |
| Patterns.ParseLiteral | scrape_all_models.py:253 | a full literal parses to an amount that writes back to it |
| Patterns.LiteralDecimal | scrape_all_models.py:253 | a literal as written is plain decimal notation |
| Patterns.LiteralRoundTrip | scrape_all_models.py:253 | writing an amount and parsing it back gives the same amount |
| Patterns.Unquote | scrape_all_models.py:317 | the description group is never empty |
| Patterns.UnquoteIsLazyMatch | scrape_all_models.py:317 | the group is what backtracking of `"?(.+?)"?$` gives: greedy opening quote when a split still follows, lazy group leaving a closing quote whenever possible |
| Patterns.Group | scrape_all_models.py:237 | a group is found exactly when the heading pattern matches; it is one of the options, a `WxH` resolution, a literal, or non-empty text, by pattern |
| Decimal.Digits | scrape_all_models.py:211 | `str(n)`: shortest digit string with value `n` |
| Decimal.PadLeft | scrape_all_models.py:211 | zero-padding to width `w` keeps the value |
| Decimal.PartsOfDecimal | scrape_all_models.py:211 | `i.f` has parts `i` and `f` and is decimal text |
| Decimal.AmountTextDenotes | scrape_all_models.py:253 | the literal as written denotes its own value |
| Decimal.RoundHalfEvenNearest | scrape_all_models.py:211 | the rounded quotient is within half a unit and a tie goes to the even neighbour |
| Decimal.TrimFixedParts | scrape_all_models.py:211 | `rstrip('0').rstrip('.')` of `i.p` keeps `i` and the significant digits of `p` |
| Decimal.TrimZerosValue | scrape_all_models.py:211 | stripping trailing zeros divides the value by the matching power of ten |
| Decimal.FixedTenTrimmed | scrape_all_models.py:211 | `f"{m/10^10:.10f}"` stripped denotes exactly `m/10^10`, with at most ten decimals and no trailing zero |
| Decimal.TrimmedFixed | scrape_all_models.py:211 | `i.p` stripped denotes the digits `ip` scaled back by `|p|` places |
| Decimal.PerMillionExact | scrape_all_models.py:208-211 | for literals with at most four decimals the rendering denotes exactly the literal divided by a million, with no trailing zero |
| Decimal.PerMillionIsDecimal | scrape_all_models.py:211 | every per-million rendering is plain decimal text without an exponent |
| Decimal.FloatWhole | scrape_all_models.py:287-289 | the whole part of `str(float(x))` keeps the value, has no leading zero |
| Decimal.FloatFraction | scrape_all_models.py:287-289 | the fraction of `str(float(x))` has at least one digit and no trailing zero beyond a lone `0` |
| Decimal.TrimZerosStartValue | scrape_all_models.py:287-289 | stripping leading zeros keeps the value |
| Decimal.FloatTextDenotes | scrape_all_models.py:287-289 | `str(float(x))` denotes the literal's own value, always with a point |
| Text.StripStartSpec | scrape_all_models.py:120 | `lstrip` removes exactly the leading run of whitespace |
| Text.StripEndSpec | scrape_all_models.py:120 | `rstrip` removes exactly the trailing run of whitespace |
| Text.StripSpec | scrape_all_models.py:120 | `strip` yields the text between the leading and trailing whitespace runs, starting and ending with a non-space |
| Text.TrimEnd | scrape_all_models.py:211 | `rstrip(c)` removes exactly the trailing run of `c` |
| Text.TrimStart | scrape_all_models.py:287-289 | `lstrip(c)` removes exactly the leading run of `c` |
| Text.Split | scrape_all_models.py:142 | `split('\n')` gives at least one newline-free piece, and joining the pieces restores the text |
| Text.SplitJoin | scrape_all_models.py:142-158 | splitting undoes joining for newline-free lines |
| Text.ContainsInJoin | scrape_all_models.py:158-166 | a newline-free phrase occurs in the joined lines exactly when it occurs in one of them |
| Text.LeftmostSpec | scrape_all_models.py:119-126 | the search finds the least position satisfying the test, and none only when none does |
| Text.RightmostSpec | scrape_all_models.py:103-106 | the search finds the greatest position satisfying the test, and none only when none does (the give-back of the greedy `[^\s\]]+\.png`, `\s*` and `.+\.png`) |
| Paths.SnapshotsEmpty | scrape_all_models.py:95-96 | `findall` finds nothing exactly when no `[Snapshot](...)` link starts in the output |
| Paths.SnapshotsLast | scrape_all_models.py:95-97 | the last capture is that of a link after which no further link starts |
| Paths.SnapshotsShape | scrape_all_models.py:95 | every capture is non-empty and holds no `)` |
| Paths.SnapshotPathSpec | scrape_all_models.py:92-98 | no path exactly when the output holds no snapshot link; otherwise a `)`-free target of a link after which no other link starts |
| Paths.PathRunEnd | scrape_all_models.py:103 | the maximal run of `[^\s\]]` characters from a position |
| Paths.PageShotEnd | scrape_all_models.py:103 | a match at `k` is `.playwright-cli`, a separator, `page-`, path characters and `.png` |
| Paths.PageShotAtShape | scrape_all_models.py:103 | what a match spans has the page screenshot shape |
| Paths.PageShotSpec | scrape_all_models.py:103-105 | no path exactly when the pattern matches nowhere; otherwise the leftmost match, of the page screenshot shape and taken from the output |
| Paths.LineEnd | scrape_all_models.py:106 | the end of the line holding a position |
| Paths.GroupEnd | scrape_all_models.py:106 | the group `(.+\.png)` ends with `.png` and holds no line break |
| Paths.GroupShape | scrape_all_models.py:106 | a group found is a one-line `.png` path |
| Paths.CaptionShotSpec | scrape_all_models.py:106-108 | no group exactly when the caption pattern matches nowhere; otherwise a one-line `.png` path taken from the output |
| Paths.CaptionShotNone | scrape_all_models.py:106-107 | no group exactly when the caption pattern matches nowhere |
| Paths.CaptionShotFound | scrape_all_models.py:106-108 | a group found is a one-line `.png` path taken from the output |
| Paths.StripCaption | scrape_all_models.py:108 | stripping a group keeps its `.png` end and drops only leading whitespace |
| Paths.CaptionShotStripped | scrape_all_models.py:106-108 | the stripped group ends in `.png`, starts with a non-space and lies within one line of the output |
| Paths.ScreenshotPathSpec | scrape_all_models.py:101-109 | nothing exactly when neither pattern matches; a page screenshot path wins; otherwise the stripped caption path |
| Paths.ModelNameFromUrl | scrape_all_models.py:392-393 | the name is the suffix after the last `/`, holds no `/`, and is the whole URL when it has none |
| Paths.ModelNameOfJoin | scrape_all_models.py:392-393 | the name after the last `/` of a URL is recovered whole |
| Paths.SafeFilename | scrape_all_models.py:396-397 | same length, no `/` or `\`, every other character kept |
| Paths.SafeFilenameIdempotent | scrape_all_models.py:396-397 | a safe name is left as it is |
| Paths.SafeFilenameSeparators | scrape_all_models.py:396-397 | every separator becomes `_` |

## Left out

- Binary floating point:
  - Prices are exact decimals (`Decimal.Amount`).
  - For literals with at most four decimals and a value below 10^11, `f"{x/1e6:.10f}"` is modelled exactly. Below that bound the two roundings of the double (`float(x)` and the division) stay under 2.3·10^-11, less than half the last printed digit. From about 10^11 on, Python's tenth decimal can differ from the model's exact one. For example, `$9007199254740993` is already `9007199254740992.0` as a double.
  - With more decimals the model rounds the exact quotient half to even at the tenth decimal. Python rounds the binary double, which can differ in the last digit.
- Extract.LayoutPricesDecimal: per-minute and per-image use-case prices are `str(float(x))`. Python prints these in exponent form outside the positional range, e.g. `$0.00001` gives `1e-05`. There the model's decimal text is not what the source prints.
- Decimal.FloatText: stands for `f"{float(x)}"` only where Python prints positional notation. Literals of 10^16 and more, or below 10^-4, print in exponent form in Python; the model does not cover that. Literals that a double cannot hold exactly keep their exact digits here.
- Unicode: `\d` and `\s` beyond ASCII digits and the characters `str.isspace` accepts in the BMP are not modelled. Strings are sequences of characters with no encoding.
- I/O and orchestration are not modelled. This covers:
  - `run_cli` (a subprocess);
  - `main` (browser navigation, sleeps, file copies, JSON writing);
  - `save_progress`;
  - the other scripts of the repository (`scrape_openai_pricing.py`, `claude_structured_client.py`) and the test file.
- The `model_name` argument of `extract_pricing_from_snapshot` is unused by the source. Extract.ExtractPricingFromSnapshot takes it and ignores it.
- CostScan.ScanCost: the unit basis that the cost-only branch looks up in the ten lines before the price (lines 345-354) is not computed. All three of its branches divide by a million, so the price does not depend on it.
- Section.Classify: uses one regular-expression search with `re.MULTILINE` over the joined section text. The model searches each raw line, which is the same thing because no part of that pattern matches a newline.
- Where the code differs from the layout description the repository gives, the model follows the code:
  - the per-image and use-case branches append without deduplicating, so their unit types can repeat;
  - the use-case branch prices a `$<amount>` heading line itself, not the line after a `Cost` heading;
  - a per-minute or per-image use-case price is `str(float(x))`, so `0.040` becomes `0.04` rather than passing through literally;
  - the use-case, per-second and cost-only branches never leave a "Quick comparison" block once in one;
  - the per-image branch leaves one only on `Image generation`/`Modalities` headings after line 5.
- Paths.SnapshotPathSpec: states that the path is the target of a link after which no further link starts. It does not state that this link is the one `re.findall`'s left-to-right, non-overlapping scan reaches, which the function `Paths.SnapshotsFrom` itself models.
- Paths.CaptionShotSpec: states the shape of the group and that it lies in the output. It does not characterise which colon and how much whitespace the matcher settles on; the functions `Paths.CaptionStart` and `Paths.GroupStart` model that backtracking.
- UseCaseScan.CostTextDenotes: for use-case prices with more than four decimals divided by a million, it states only that the price is decimal text, not its rounded value.
