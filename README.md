# Gradebook Analyzer — verified model of the analysis core

The Gradebook Analyzer reads student names and marks into a Python dict and
then analyses it. The analysis computes the following:

- the average and the median mark;
- the student with the highest mark and the student with the lowest mark;
- a letter grade per student, using thresholds at 90, 80, 70 and 60;
- how many students received each grade;
- the split into passed students (mark of 40 or more) and failed students.

This project models those analysis functions in Dafny and proves what they
promise.

The dict is modelled as the sequence of its items in insertion order
(`Boards.Entry`). Python's iteration order is therefore explicit. A real dict
never repeats a key, so the operations that depend on it require
`DistinctNames`. `Boards.AsMap` rebuilds the key-to-value view by storing the
items one after the other. Marks are `real`.

Where Python raises on an empty dict, the model returns an `Err` that names
the exception:

- `ZeroDivisionError` from the average;
- `StatisticsError` from `statistics.median`;
- `ValueError` from `max` and `min`.

Nothing in the program rejects an empty roster. Each of these functions raises
when it is called on `{}`. In `main_menu`, the ZeroDivisionError from the
average at gradebook.py:90 ends the program before the median, max and min
are reached.

Files:

- `boards.dfy` (module `Boards`): the insertion-ordered dict.
- `sorting.dfy` (module `Sorting`): the ascending order that `statistics.median` sorts into.
- `gradebook.dfy` (module `Gradebook`): the analysis.

`assign_grades` and `count_grades` fill a dict inside a loop. They are methods
with `for` loops and loop invariants. The other operations are single
expressions and are modelled as functions.

## Model

| member | source | states |
|---|---|---|
| `Gradebook.CalculateAverage` | gradebook.py:14-16 | An empty dict gives ZeroDivisionError, and only an empty dict. Otherwise the average times the number of students equals the left-to-right total of the marks. |
| `Gradebook.SumBounds` | gradebook.py:16 | If every mark lies in [lo, hi], the total of n marks lies in [n·lo, n·hi]. |
| `Gradebook.MeanWithin` | gradebook.py:16 | If every mark lies in [lo, hi], the total divided by the count also lies in [lo, hi]. |
| `Gradebook.AverageBetweenMinAndMax` | gradebook.py:16 | For a non-empty dict the average is defined and lies between the lowest and the highest mark, inclusive. |
| `Gradebook.CalculateMedian` | gradebook.py:18-20 | An empty dict gives StatisticsError, and only an empty dict. Otherwise the median is the middle element of an ascending rearrangement of the marks for an odd count, or the mean of its two middle elements for an even count. |
| `Sorting.Sort` | gradebook.py:20 | The result is ascending and is a permutation of the marks. |
| `Sorting.SortedUnique` | gradebook.py:20 | Two ascending sequences that hold the same marks are equal. So any correct sort gives the same median. |
| `Gradebook.MedianOrderIndependent` | gradebook.py:20 | Two dicts whose marks are the same multiset have the same median, whatever the order of the entries and whoever holds each mark. |
| `Gradebook.MedianBetweenMinAndMax` | gradebook.py:20 | For a non-empty dict the median is defined and lies between the lowest and the highest mark. |
| `Gradebook.MaxIndex` | gradebook.py:24 | The position `max` keeps satisfies `IsFirstMax`: it is in range, its mark is at least every mark, and every earlier mark is strictly smaller. So on ties the first inserted entry wins. |
| `Gradebook.MinIndex` | gradebook.py:29 | The position `min` keeps satisfies `IsFirstMin`: its mark is at most every mark, and every earlier mark is strictly greater. So it is the first minimal entry. |
| `Gradebook.FindMaxScore` | gradebook.py:22-25 | An empty dict gives ValueError, and only an empty dict. Otherwise the result is the name of the first entry with the highest mark, together with that name's own mark. This entry exists, and the result is the same for any entry that is first and highest. |
| `Gradebook.FindMinScore` | gradebook.py:27-30 | The same as `FindMaxScore` for the lowest mark: ValueError on an empty dict, otherwise the first minimal name with its own mark. |
| `Boards.AsMapAt` | gradebook.py:25 | With distinct names, looking up a name in the dict gives the mark stored with that name. |
| `Boards.AsMapKeys` | gradebook.py:87 | The keys of the dict built from the items are exactly the names of the items. |
| `Boards.AsMapSize` | gradebook.py:87 | With distinct names, the dict has one entry per item. |
| `Gradebook.GradeOf` | gradebook.py:36-45 | The threshold table, in both directions: A iff mark ≥ 90; B iff 80 ≤ mark < 90; C iff 70 ≤ mark < 80; D iff 60 ≤ mark < 70; F iff mark < 60. |
| `Gradebook.GradeMonotone` | gradebook.py:36-45 | A higher mark never receives a worse grade. |
| `Gradebook.AssignGrades` | gradebook.py:32-46 | The grade dict has the same names as the mark dict, in the same order. Each name's grade is the table's grade for that name's mark. |
| `Gradebook.GradeDictMatches` | gradebook.py:34-46 | For a result of that shape, seen as dicts: the names stay distinct, the grade dict's key set equals the mark dict's key set, and every key maps to the grade of the mark stored under it. |
| `Gradebook.TallySum` | gradebook.py:50-53 | For any list of grades, the numbers of A, B, C, D and F add up to the length of the list. |
| `Gradebook.CountGrades` | gradebook.py:48-53 | A grade is a key of the counts iff some student received it. Each count equals the number of students with that grade. The counts add up to the number of entries, which with distinct names is the size of the dict (`Boards.AsMapSize`). |
| `Gradebook.GradeDistribution` | gradebook.py:102-103 | Grading then counting: each student is graded by their own mark, a grade is a key of the counts iff some student's mark earns it, each count is that grade's number of students, and the counts add up to the number of students. |
| `Gradebook.Passed` | gradebook.py:110 | A name is in the passed list iff some entry with that name has a mark ≥ 40. |
| `Gradebook.Failed` | gradebook.py:111 | A name is in the failed list iff some entry with that name has a mark < 40. |
| `Gradebook.InterleavesLength` | gradebook.py:110-111 | An order-preserving merge of two lists is as long as the two lists together. |
| `Gradebook.PassFailPartition` | gradebook.py:110-111 | The names in insertion order are an order-preserving merge of the passed and failed lists. So each list keeps insertion order, and their lengths add up to the number of students. |
| `Gradebook.PassFailDisjoint` | gradebook.py:110-111 | With distinct names, no student is both passed and failed. |

## Left out

- The menu loop, the `input()` prompts and the `int(...)`/`float(...)` conversions (gradebook.py:63-87, 120-121). These are console I/O. A ScoreBoard is a parameter of every operation.
- Overwriting of a repeated name at gradebook.py:87. It appears only as the `DistinctNames` precondition that every dict satisfies.
- `display_results` and all printing and f-string formatting, including the `:.2f` rounding (gradebook.py:55-61, 95-99, 105-107, 113-115).
- The internals of `statistics.median`. The median is specified by this model's own ascending-order definition (`Sorting.Sort`). Any correct sort gives the same result (`Sorting.SortedUnique`).
- IEEE floating point. Marks are exact reals, so rounding in the sum and the division is not modelled. A NaN mark is not modelled either. Such a mark would be graded F and would appear in neither the passed nor the failed list.
- CountGrades: the key order of the resulting dict (the order in which grades first occur) is not modelled. It only decides the printing order at gradebook.py:106-107.
