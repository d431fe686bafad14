# Dictionary deduplicator, modelled in Dafny

This project models the deduplication core of `buildhelpers/rm_duplicates.py`. That script cleans up a TEI
dictionary file one `entry` at a time, working on the parsed element tree in place. It has three reducers:

- `rm_doubled_senses` drops every later `sense` whose list of stripped `quote` texts equals an earlier
  sense's list.
- `rm_doubled_quotes` drops every later `quote` of a `sense`/`cit`/`quote` path whose raw text equals an
  earlier quote's text, or raises `ValueError` (see Findings).
- `rm_empty_nodes` makes two breadth-first passes. In each pass it strips the `n` attribute from `sense`
  elements and unlinks elements that have blank text and no children.

Around them sits the file handling. `XmlParserWrapper` cuts the file text into the part before `<TEI`,
the root element and the part after `</TEI>`, and puts the two outer parts back verbatim, as decoded text,
when writing.
The entry loop of `main` runs the three reducers on every entry and either stops at the first change
(detect mode) or writes the file when anything changed.

Modules:

- `Base`: `Option`, `Result`, the `ValueError`/`AttributeError` exceptions, Python truthiness of an
  optional flag, the pair order of `itertools.combinations`, and the first-equal index of a sequence.
- `Text`: `str.strip`, `str.find`, `in` on strings and `str.endswith`.
- `Etree`: the element tree as an arena.
  - Elements are ids into `Tree.nodes`. Each element has a tag, an optional text, an attribute map and
    ordered children.
  - `findall` and `iter` are functions over the arena.
  - Unlinking a set of children is `PrunedAll`. An unlinked element stays in the arena, as a removed
    Python object does.
- `Senses`, `Quotes`, `EmptyNodes`: each reducer is a module-level method that takes the tree `t: Tree`
  and may modify it (`modifies t`). Its loop reproduces the source's loop. Each method is proved equal to a specification function, and the lemmas state what that
  function promises.
  - `Quotes` has two skip rules: `AsWritten`, the guard of lines 129-130, and `BothPresent`, the corrected
    guard. `AsWrittenAgrees` shows that the guard as written, whenever it does not raise, gives what the
    corrected one gives. So each lemma about the result holds for the corrected guard always, and for the
    guard as written whenever it returns.
- `Verbatim`: the split of the file text and the text that `write` puts in the file.
- `Driver`: the entry loop of `main`, as a module-level method that modifies the tree and as a function
  `Loop`. The lemmas about
  `Loop` relate it to a fold without early exit, `Upto`. The quote skip rule is a parameter. Under the
  guard as written, the `ValueError` of `rm_doubled_quotes` ends the run.

## Model

| member | source | states |
|---|---|---|
| Etree.FindAll | buildhelpers/rm_duplicates.py:36 | `findall(x, tag)`: exactly the children of `x` with that tag, none twice |
| Etree.TaggedConcat | buildhelpers/rm_duplicates.py:36-37 | filtering by tag distributes over concatenation, so `findall` and `iter` with a tag keep the order of the children and of the walk |
| Etree.RemoveAbsent | buildhelpers/rm_duplicates.py:134 | `list.remove(x)` raises `ValueError` exactly when `x` is not in the list |
| Etree.RemoveFirst | buildhelpers/rm_duplicates.py:134 | `list.remove(x)` drops the first occurrence of `x` and keeps the other elements in order |
| Etree.IterMember | buildhelpers/rm_duplicates.py:37 | `iter` of `x` holds `x` and exactly the elements in the `iter` of some child of `x` |
| Etree.IterParent | buildhelpers/rm_duplicates.py:37 | every element that `iter` of `e` yields, other than `e`, is a child of another element it yields |
| Text.StripSpec | buildhelpers/rm_duplicates.py:73 | `strip()` gives a slice of the input between whitespace-only ends, with no whitespace at its own ends; it is empty exactly for whitespace-only input |
| Text.Find | buildhelpers/rm_duplicates.py:159 | `find` gives -1 or an index where the needle occurs, and the needle occurs at no earlier index |
| Combinations.PairsMember | buildhelpers/rm_duplicates.py:77 | `itertools.combinations(range(n), 2)` yields exactly the pairs `a < b < n` |
| Combinations.PairsOrdered | buildhelpers/rm_duplicates.py:77 | the pairs come in the order of `combinations`: by first index, then by second |
| Senses.SameSignature | buildhelpers/rm_duplicates.py:78-80 | equal lengths and all zipped items equal holds exactly when the two signatures are equal |
| Senses.RemoveDoubledSenses | buildhelpers/rm_duplicates.py:65-86 | the loop over all pairs leaves a well-formed tree, and the tree and return value are those of `SensesResult` |
| Senses.MarkedAllPairs | buildhelpers/rm_duplicates.py:77-80 | a sense is matched by some pair exactly when an earlier sense has its signature |
| Senses.GoneAllPairs | buildhelpers/rm_duplicates.py:77-85 | the senses that the pair loop removes are exactly `Doubled`, the senses with an earlier equal signature |
| Senses.SignatureMember | buildhelpers/rm_duplicates.py:73-74 | the signature holds exactly the stripped texts of the quotes with a truthy text in the subtree of the sense, and has no more items than that subtree has elements |
| Senses.QuoteTextsConcat | buildhelpers/rm_duplicates.py:73-74 | the texts collected from two runs of elements are those of the first run followed by those of the second; with the pre-order of `Iter` this fixes the signature as a tuple in document order, repetitions kept |
| Senses.SignaturePruned | buildhelpers/rm_duplicates.py:73-74 | removing senses from the entry does not change any sense's signature, so computing all signatures first is sound |
| Senses.DoubledMember | buildhelpers/rm_duplicates.py:77-85 | a sense is removed exactly when an earlier sense has an equal signature |
| Senses.SenseSurvives | buildhelpers/rm_duplicates.py:77-85 | a sense survives exactly when no earlier sense has its signature, so the first of each group survives |
| Senses.RemovedSenseHasTwin | buildhelpers/rm_duplicates.py:77-85 | every removed sense has an earlier surviving sense with the same signature |
| Senses.SensesKept | buildhelpers/rm_duplicates.py:69-85 | the surviving senses are the old ones minus the removed, in the old order, and no non-sense child is removed |
| Senses.SurvivorsDistinct | buildhelpers/rm_duplicates.py:73-85 | two different surviving senses have different signatures |
| Senses.NothingDoubled | buildhelpers/rm_duplicates.py:75-86 | without equal signatures the tree is unchanged |
| Senses.SensesFlag | buildhelpers/rm_duplicates.py:69-86 | the result is `None` exactly when there is one sense, and truthy exactly when the tree changed |
| Senses.SensesIdempotent | buildhelpers/rm_duplicates.py:65-86 | a second run changes nothing and returns a falsy value |
| Quotes.QuotesOfSensesMember | buildhelpers/rm_duplicates.py:119-120 | a (cit, quote) pair is collected exactly when the cit is a `cit` child of a listed sense and the quote is a `quote` child of the cit |
| Quotes.TranslationsScope | buildhelpers/rm_duplicates.py:117-120 | the collected pairs are exactly sense, then cit, then quote, by direct children only |
| Quotes.QuotesOfSensesDistinct | buildhelpers/rm_duplicates.py:117-120 | no quote is collected twice |
| Quotes.AnyTaggedFindAll | buildhelpers/rm_duplicates.py:129-130 | the guard's test reads the truthiness of `cit.findall(tag)` |
| Quotes.SkipFindAll | buildhelpers/rm_duplicates.py:129-130 | the guard as written skips exactly when `cit1` has no child with the tag of `quote1`, or when `cit2` has none with the tag of `quote2` and the two cits differ |
| Quotes.Compare | buildhelpers/rm_duplicates.py:127-135 | one comparison on the tree is the step function `Step`, including the `ValueError` of `cit2.remove` |
| Quotes.CompareRow | buildhelpers/rm_duplicates.py:125-135 | the comparisons of one first quote against all later ones are `RowAfter`, stopping at an exception |
| Quotes.CompareAll | buildhelpers/rm_duplicates.py:125-135 | all pairs in `combinations` order are `RowsAfter` |
| Quotes.RemoveDoubledQuotes | buildhelpers/rm_duplicates.py:113-136 | the method's result and tree are those of `QuotesResult`, with an exception passed on |
| Quotes.RowsAfterErr | buildhelpers/rm_duplicates.py:134 | once `cit2.remove` raises, no later pair is compared |
| Quotes.BothPresentExact | buildhelpers/rm_duplicates.py:121-136 | under the corrected guard the reducer returns `None` on at most one pair, else unlinks exactly the quotes with an earlier equal text |
| Quotes.DupQuotesMember | buildhelpers/rm_duplicates.py:133 | a collected quote is dropped exactly when an earlier collected quote has the same raw text (`None` equal to `None`) |
| Quotes.AsWrittenAgrees | buildhelpers/rm_duplicates.py:125-135 | whenever the reducer as written returns, it returns the flag and the tree of the corrected reducer |
| Quotes.QuotesWellFormed | buildhelpers/rm_duplicates.py:125-135 | under either guard, a reducer that returns leaves a well-formed tree over the same elements |
| Quotes.QuoteSurvives | buildhelpers/rm_duplicates.py:125-135 | the corrected guard never raises; under either guard, when the reducer returns, a collected quote stays in its cit exactly when no earlier collected quote has its text |
| Quotes.SurvivingQuotesDistinct | buildhelpers/rm_duplicates.py:125-135 | under either guard, when the reducer returns, two surviving collected quotes have different texts |
| Quotes.QuotesScope | buildhelpers/rm_duplicates.py:117-136 | the corrected guard never raises; under either guard, when the reducer returns, only children are removed, each removed child is a collected quote of its own cit with an earlier equal text, and nothing else of any element changes |
| Quotes.QuotesFlag | buildhelpers/rm_duplicates.py:121-136 | the corrected guard never raises; under either guard, when the reducer returns, it returns `None` exactly on at most one pair and `True` exactly when the tree changed |
| Quotes.ThreeEqualRows | buildhelpers/rm_duplicates.py:125-135 | with the guard as written, three equal quotes in one cit raise `ValueError` |
| Quotes.AsWrittenRaises | buildhelpers/rm_duplicates.py:129-134 | an entry whose collected quotes are three equal quotes of one cit makes the reducer as written raise `ValueError` |
| EmptyNodes.StripNumber | buildhelpers/rm_duplicates.py:102-104 | `n` is deleted from an element whose tag ends in `sense` exactly when `n` is truthy, and the deletion is reported |
| EmptyNodes.VisitItem | buildhelpers/rm_duplicates.py:99-110 | one work-list item keeps the breadth-first walk invariant, or raises `AttributeError` exactly when the entry itself is a blank leaf |
| EmptyNodes.EmptyPass | buildhelpers/rm_duplicates.py:98-110 | one breadth-first pass over the growing work list gives the result of `Pass` |
| EmptyNodes.RemoveEmptyNodes | buildhelpers/rm_duplicates.py:94-111 | the two passes give `EmptyNodesResult`, with the `changed` flag of either pass |
| EmptyNodes.TwoPasses | buildhelpers/rm_duplicates.py:97-111 | the second pass runs on the tree left by the first, and the flags are OR-ed |
| EmptyNodes.PassEffect | buildhelpers/rm_duplicates.py:98-110 | a pass unlinks exactly the blank leaves it reaches, removes `n` and only `n` from the reached elements whose tag ends in `sense` and whose `n` is non-empty, leaves the attributes of every other element as they were, and keeps every tag and text |
| EmptyNodes.PassFlag | buildhelpers/rm_duplicates.py:98-111 | a pass reports a change exactly when the tree changed |
| EmptyNodes.FirstPassEntry | buildhelpers/rm_duplicates.py:97-107 | after the first pass the entry is a blank leaf exactly when its text is blank and all its children were blank leaves |
| EmptyNodes.EmptyNodesErr | buildhelpers/rm_duplicates.py:105-107 | `AttributeError` (`None.remove`) is raised exactly when the entry is a blank leaf before or after the first pass |
| EmptyNodes.BlankLeavesGone | buildhelpers/rm_duplicates.py:105-108 | no blank leaf reached by the walk is still a child of any element afterwards |
| EmptyNodes.EmptiedByFirstPass | buildhelpers/rm_duplicates.py:95-108 | a blank element whose children are all blank leaves becomes a reachable blank leaf after the first pass |
| EmptyNodes.EmptiedParentsGone | buildhelpers/rm_duplicates.py:95-108 | such a parent is unlinked by the second pass |
| EmptyNodes.NumbersStripped | buildhelpers/rm_duplicates.py:102-103 | no reached element whose tag ends in `sense` keeps a truthy `n` |
| EmptyNodes.NoDeeperCascade | buildhelpers/rm_duplicates.py:95-97 | in a chain of three blank elements below the entry, the topmost one survives as a blank leaf: there is no third round |
| Verbatim.Split | buildhelpers/rm_duplicates.py:156-169 | a failed split is a `ValueError` |
| Verbatim.SplitErr | buildhelpers/rm_duplicates.py:156-166 | the split fails exactly when no spelling of UTF-8 occurs or no `<TEI` is followed by a `</TEI>` |
| Verbatim.SplitRoundTrip | buildhelpers/rm_duplicates.py:162-169 | the three pieces concatenate to the file text |
| Verbatim.SplitBoundaries | buildhelpers/rm_duplicates.py:159-169 | the root piece starts at the first `<TEI` and ends right after the first `</TEI>` at or after it |
| Verbatim.AssembleVerbatim | buildhelpers/rm_duplicates.py:181-186 | the written text holds the outer pieces verbatim around the body and ends with a newline; its length is that of the three pieces plus one exactly when the last piece lacks a final newline, so exactly one `"\n"` is added then and nothing otherwise |
| Verbatim.SplitAssemble | buildhelpers/rm_duplicates.py:159-186 | writing an unchanged root back gives the file text, plus a newline when it had none |
| Driver.Entries | buildhelpers/rm_duplicates.py:205 | the entries are exactly the root and its descendants tagged `entry` |
| Driver.Reduce | buildhelpers/rm_duplicates.py:206-209 | one turn that returns leaves a well-formed tree over the same elements |
| Driver.ReduceEntry | buildhelpers/rm_duplicates.py:206-210 | senses, then quotes under the given guard, then empty nodes run on the entry in place; an exception of the quotes or empty-node reducer ends the turn; the flag is the truthiness of any of the three results |
| Driver.RunLoop | buildhelpers/rm_duplicates.py:205-213 | the loop over the tree in place ends as `Loop` says and leaves the tree it reports |
| Driver.UptoErr | buildhelpers/rm_duplicates.py:205-209 | an exception ends the loop, and no later entry is processed |
| Driver.UptoFlag | buildhelpers/rm_duplicates.py:213 | once set, `changed` stays set |
| Driver.NormalRun | buildhelpers/rm_duplicates.py:205-213 | without detect mode every entry is processed, and `changed` is the OR over all entries |
| Driver.DetectStops | buildhelpers/rm_duplicates.py:210-212 | in detect mode the loop stops at the first changed entry, after that entry has been changed |
| Driver.DetectErr | buildhelpers/rm_duplicates.py:205-213 | in detect mode an exception raised by an entry before any entry has been changed ends the run with that exception, not with status 42 |
| Driver.DetectQuiet | buildhelpers/rm_duplicates.py:205-213 | when no entry changes, both modes run every entry and end with `changed` false on the same tree |
| Driver.WrittenIffChanged | buildhelpers/rm_duplicates.py:210-217 | the file is written exactly when the loop ends normally with `changed`; status 42 exactly on detection; the written text is the text before the root, the serialised tree, the text after the root, and one added newline exactly when that last piece lacks one |
| Driver.Deduplicate | buildhelpers/rm_duplicates.py:204-217 | `main` from the loop on ends as `MainResult` says, under either quote guard: the `ValueError` of the guard as written is the `Raised` status |

## Left out

- File I/O, `open` and the UTF-8 encoding are left out. File text is a `string`, and bytes are not distinguished from characters.
- ElementTree parsing and serialisation are left out. The parsed tree is an input whose ids run in document order. The serialised root is a parameter `serialise` of `Driver.MainResult`.
- `ET.register_namespace` is left out.
- Comment nodes are left out. Every tag is a string, so an `ET.Comment` element inside an entry, on which `node.tag.endswith` would fail, is not modelled.
- Argument parsing (`HelpfulParser`, argparse), the output file name, `print` and `sys.exit` are left out. Exit code 42 is the `Exit42` status.
- The xsltproc, make and diff runs after writing are left out.
- Driver.Entries: computed once on the tree before the loop. The source's `iter` is lazy over a tree the reducers change. The two agree when no entry lies inside another entry's removed subtree.
- `getchildren()` (lines 106 and 110) was removed in Python 3.9. The model reads it as the list of children, as on Python 3.8 and earlier.
- The file is read in text mode with universal newlines (line 154) and written in binary (lines 181-186). A `\r\n` in the outer pieces is therefore written as `\n`. The outer pieces are kept verbatim only as decoded text; line endings are not modelled.
- The exception messages are not modelled, only the exception class.
- The tree left behind after an exception is not stated.

## Findings

| source | as written | input that shows it | evidently intended | confidence | as-written member | corrected member |
|---|---|---|---|---|---|---|
| buildhelpers/rm_duplicates.py:129-134 | the skip test asks whether each cit still holds any quote, and `and` binds tighter than `or`, so a pair whose second quote was already removed is compared again and `cit2.remove(quote2)` raises `ValueError` | an entry with one sense holding one cit with three quotes of equal text | skip a pair when either of its quotes has already been removed, as the comment on line 126 says | not executed | Quotes.AsWrittenRaises | Quotes.QuotesFlag |
