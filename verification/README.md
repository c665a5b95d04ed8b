# Verified models of vt example programs and bundled libraries

This project models parts of the vt repository in Dafny 4.11 and proves properties of them.
`dafny verify dfyconfig.toml` checks all files.

## What is modelled

**The block-decomposed Jacobi solvers** (`jacobi_*.dfy`). An element of the collection sends its faces to its
neighbours when it handles `doIter`, counts the faces it receives, and sweeps its block when the last one it waits for
has arrived. The protocol is a step system over any number of axes; the solvers use one, two and three. A schedule is any
sequence of handler runs; handlers are atomic, every message is delivered exactly once, in any order, and an epoch ends
when nothing is left to handle. Values are `real`. The results:

- Under *every* schedule each element sweeps exactly once per epoch, and the elements together compute one sweep of the
  global array in which the elements that swept before their own `doIter` (the *late* ones) show new values instead of old
  ones. No two neighbours are late.
- A schedule computes a Jacobi step for all starting values if and only if every element handles `doIter` before its last
  face. The code does not ensure this: every collection with a neighbour pair has a schedule that breaks it. With it, `k`
  epochs from the initialisation on leave exactly `k` Jacobi sweeps of the initial guess on the single global array.
- A Jacobi step solves every row of the linear system for its own unknown, with the old values around it. A field with
  zero boundary is left as it is by a step if and only if it solves the system, and only one field does.
- The driver loop, run over any schedules with the norms that the elements report, stops on all nodes after the same
  epoch: the first one whose norm is below the tolerance, or the one after `maxIter`.
- The three-dimensional solver copies the number of objects along y into the number along z
  (`examples/collection/jacobi3d_vt.cc:522`). Every element can sweep in an epoch if and only if the two numbers agree or
  there is one object along x and one along y; the solver performs Jacobi steps if and only if the two numbers agree.
- The classes `LinearPb1DJacobi`, `LinearPb2DJacobi` and `LinearPb3DJacobi` work on flattened arrays in place, and each
  handler is proved to do to the arrays what the protocol does to the block. For the one-dimensional solver a whole
  collection is constructed and run on its arrays: after any number of epochs, under any schedules, they hold what the
  protocol reaches, and so the Jacobi sweeps of the initial guess when the epochs are on time.

**The command-line library** (`cli_*.dfy`), with the TOML defaults of its configuration reader:

- The section events that the reader emits never mismatch when they are replayed on a stack. Exactly the sections left
  behind by a return to `[default]` from a section inside another one stay open, and this is an if and only if over all
  files. The keys of the output are those of the file, in order, with their inputs, and where a key stands exactly the
  sections on the way to its own section are open, above those left open before.
- A key stands in its section or in one inside it. Without quotes, the parts of its full name joined by dots are the
  section, a dot and the text of the key, if and only if neither ends in a dot: the reader drops an empty last part.
- Writing settings to a file and reading the file gives the settings back.
- Over every sequence of registry operations, including those that throw, no two options of an App share a name. A name
  can still select two options; the exact condition is that they have names that agree once everything is ignored that
  either option ignores.
- The argument loop ends on every argument vector, also when the rest of a cluster of short flags is pushed back. The
  rules say which use the parser makes of the next arguments: which positional takes one, when an argument goes to the
  missing ones, and exactly how many arguments an option takes. In every state there is one such use, or the parser
  throws, and never both. So each argument vector has one outcome, and the loop computes it: it succeeds if and only if
  the uses take all arguments, and then the results and missing arguments are what they give. The usual forms of a line
  have laws of their own that do not mention the rules: `--name=value` leaves exactly that value, for every name and
  value, and so on for the other forms.
- Overflow-checked multiplication is exact.

**mimalloc** (`mi_*.dfy`): aligned allocation, reallocation that preserves contents, exact overflow tests, and the
encoding of free-list pointers, over 64-bit words with wrap-around written out. Bitwise operations are defined on binary
digits, and the identities that the code relies on are proved. In a page that is marked zero a block may still hold a
free-list link in its first word. Zero-initialising allocation clears it; zeroing aligned reallocation
(`lib/mimalloc/src/alloc-aligned.c:128-142`) gives zeros for every link if and only if the bytes that it adds lie behind
the first word. For a caller that means: always, if and only if nothing is added or the old block has eight usable
bytes. Every function says exactly when it returns NULL: the size exceeds PTRDIFF_MAX, the alignment is no power of two,
or the page allocator has no block.

**Small distributed programs**: the block gather of the transpose example (`transpose.dfy`), the two termination examples
(`termination_ring.dfy`) and the handler of tutorial 3a (`recur_handler.dfy`), each for every schedule.

## Assumptions

- vt: atomic handlers, exactly-once delivery, epochs that end only when no message is left, correct max-reduction and
  broadcast.
- The initial values of the solvers are a parameter. Right-hand sides are zero where the code makes them so.
- The page allocator of mimalloc is a parameter that returns no block or a fresh block of at least the requested size;
  for the path that relies on size classes, an aligned one; for a page marked zero, one that is zero behind its first
  word.
- Whether a text converts to a floating-point number, the validators of options and the values of flags are parameters.

## Model

| member | source | states |
|---|---|---|
| JacobiProtocol.ExpectedIsDegree | examples/collection/jacobi2d_vt.cc:363-395 | the number of faces that init tells an element to wait for is the number of its in-range neighbours |
| JacobiCounting.StepKeepsCount | examples/collection/jacobi2d_vt.cc:240-327 | every handler run keeps the counting invariant: msgReceived is the number of distinct neighbours whose face has arrived, and wraps to 0 with the sweep |
| JacobiCounting.SweepsAtMostOnce | examples/collection/jacobi2d_vt.cc:240-327 | in every state of every schedule an element has swept at most once in the epoch and has received fewer faces than it waits for |
| JacobiCounting.EachSweepsOnce | examples/collection/jacobi1d_vt.cc:204-261 | when an epoch is over every element has swept exactly once and all counters are ready for the next epoch, under any interleaving |
| JacobiRefinement.StoresCommute | examples/collection/jacobi3d_vt.cc:235-297 | faces on different sides may be stored in either order with the same block, including the overlapping edges and corners |
| JacobiEpochs.EpochComputes | examples/collection/jacobi2d_vt.cc:151-327 | for every schedule, the global array after an epoch is the sweep in which late elements show new values; late elements are never neighbours; the state is again one between epochs |
| JacobiEpochs.BoundaryStaysZero | examples/collection/jacobi3d_vt.cc:469-510 | in every reachable state the ghost layers at the ends of the range are exactly zero |
| JacobiEpochs.LateIffNotOnTime | examples/collection/jacobi1d_vt.cc:220-223 | an element swept before its own doIter if and only if it handled doIter after its last face |
| JacobiEpochs.OnTimeEpochIsJacobi | examples/collection/jacobi2d_vt.cc:151-327 | an epoch in which every element handles doIter before its last face is one Jacobi step of the single global array with zero boundary |
| JacobiEpochs.EpochsAreJacobi | examples/collection/jacobi2d_vt.cc:151-411 | any number of such epochs compute that many Jacobi steps of the global array |
| JacobiSystem.StepSolvesRows | examples/collection/jacobi1d_vt.cc:150-158 | after a Jacobi step, 2d times the new value at an unknown less the old values of the cells next to it is the right-hand side, on d axes and however these cells are listed |
| JacobiSystem.FixedPointIff | examples/collection/jacobi1d_vt.cc:150-158 | a field with zero boundary is left as it is by a Jacobi step if and only if it solves the linear system |
| JacobiSystem.OneSolution | examples/collection/jacobi2d_vt.cc:166-191 | the linear system has at most one solution with zero boundary |
| JacobiRace.RunSameControl | examples/collection/jacobi2d_vt.cc:240-327 | which handlers can run, and which elements are late, does not depend on the values |
| JacobiRace.LateBreaks | examples/collection/jacobi1d_vt.cc:204-225 | a schedule with a late element gives a result other than the Jacobi step for some starting values |
| JacobiRace.JacobiIffOnTime | examples/collection/jacobi1d_vt.cc:140-261 | a schedule performs a Jacobi step on all starting values if and only if every element handles doIter before its last face |
| JacobiSchedules.InitIsBetween | examples/collection/jacobi2d_vt.cc:330-400 | after init the elements hold the initial guess on the unknowns, zero boundary layers and right counters, so the theorems on epochs apply |
| JacobiSchedules.Progress | examples/collection/jacobi2d_vt.cc:240-327 | an epoch that is not over can go on |
| JacobiSchedules.EpochBounded | examples/collection/jacobi2d_vt.cc:240-327 | every run of an epoch ends: its length is at most the number of elements times one more than twice the number of axes |
| JacobiSchedules.OnTimeExists | examples/collection/jacobi2d_vt.cc:275-327 | every epoch has a complete schedule that is on time |
| JacobiSchedules.LateExists | examples/collection/jacobi1d_vt.cc:204-225 | every collection in which an element has a neighbour has a complete schedule that is not on time |
| JacobiSolver.SolverComputes | examples/collection/jacobi2d_vt.cc:151-411 | from init on, k on-time epochs compute exactly k Jacobi steps of the initial guess on the global array |
| JacobiNorm.ReducedIsNorm | examples/collection/jacobi3d_vt.cc:216-232 | the maximum of the block norms is the maximum norm of the global array over its unknowns |
| JacobiNorm.NormNeverGrows | examples/collection/jacobi1d_vt.cc:155-177 | with zero right-hand side the norm never grows from one epoch to the next, under every schedule |
| JacobiDriver.AfterCounts | examples/collection/jacobi1d_vt.cc:204-261 | after k epochs from the initialisation on, under any schedules, every element has iterated k times and is ready for the next epoch |
| JacobiDriver.Broadcast | examples/collection/jacobi1d_vt.cc:73-74 | the broadcast tells every node, in whatever order it reaches them |
| JacobiDriver.Drive | examples/collection/jacobi1d_vt.cc:117-138 | the driver loop ends, over any schedules of the epochs; all nodes leave after the same epoch, which is the first one after which the norm of the collection is below the tolerance, or the one after maxIter; with on-time schedules the collection then holds that many Jacobi steps of the initial guess |
| JacobiExtent.CountsMatchIffConsistent | examples/collection/jacobi3d_vt.cc:418-528 | every element waits for exactly the faces sent to it if and only if the elements were told the true extents |
| JacobiExtent.WrongExtentsNeverSweep | examples/collection/jacobi3d_vt.cc:518-528 | with other extents, unless the elements are told that there is one object along every axis, a named element never sweeps, in any run |
| JacobiExtent.AloneNeverSends | examples/collection/jacobi3d_vt.cc:305-320 | elements that each believe to be alone never send anything |
| JacobiExtent.Counts3D | examples/collection/jacobi3d_vt.cc:518-528 | the three-dimensional solver counts right if and only if it has as many objects along z as along y |
| JacobiSolver.FinishedSweeps | examples/collection/jacobi3d_vt.cc:305-320 | with true extents, or elements that believe to be alone, every finished epoch is one sweep of every element |
| JacobiSolver.AllSweepIff | examples/collection/jacobi3d_vt.cc:235-320 | some run of an epoch lets every element sweep if and only if the extents are true or the elements believe to be alone |
| JacobiSolver.JacobiStepsIff | examples/collection/jacobi3d_vt.cc:147-415 | some schedule performs a Jacobi step on every initial guess if and only if the elements were told the true extents |
| JacobiSolver.Sweeps3DIff | examples/collection/jacobi3d_vt.cc:518-528 | in the three-dimensional solver every element can sweep if and only if there are as many objects along z as along y, or one along x and one along y |
| JacobiSolver.Jacobi3DIff | examples/collection/jacobi3d_vt.cc:518-528 | the three-dimensional solver performs Jacobi steps if and only if there are as many objects along z as along y |
| JacobiFlat.AtInjective | examples/collection/jacobi3d_vt.cc:147-205 | no two cells of a block share a place in the flattened array |
| JacobiFlat.SetLayer | examples/collection/jacobi3d_vt.cc:235-297 | storing a face overwrites exactly one ghost layer of the flattened array, cell by cell |
| JacobiFlat.PackLayer | examples/collection/jacobi3d_vt.cc:328-413 | a packed face holds the inner part of its layer and is zero on its border |
| Jacobi3D.LinearPb3DJacobi.Init | examples/collection/jacobi3d_vt.cc:418-528 | the arrays and counters are those of the initial element of the protocol, with the extent along z copied from y |
| Jacobi3D.LinearPb3DJacobi.MaxNorm | examples/collection/jacobi3d_vt.cc:214-227 | the result is the largest absolute value among the unknowns and is attained |
| Jacobi3D.LinearPb3DJacobi.DoIteration | examples/collection/jacobi3d_vt.cc:147-233 | the flattened arrays hold the swept block of the protocol: six times every new value less the six old ones around it is the right-hand side, and the ghost cells are kept; the norm handed to the reduction is that of the block |
| Jacobi3D.LinearPb3DJacobi.Exchange | examples/collection/jacobi3d_vt.cc:235-303 | receiving a face does to the arrays and counters what the protocol does to its element, with an iteration exactly when the last face arrives |
| Jacobi3D.LinearPb3DJacobi.DoIter | examples/collection/jacobi3d_vt.cc:305-415 | the faces handed to the runtime are those of the protocol, in order; an element that is alone iterates instead |
| Jacobi3D.StencilIsSweep | examples/collection/jacobi3d_vt.cc:185-205 | the seven-point stencil on flattened indices is the stencil of the linear system |
| Jacobi2D.LinearPb2DJacobi.Init | examples/collection/jacobi2d_vt.cc:330-411 | the arrays and counters are those of the initial element of the protocol |
| Jacobi2D.LinearPb2DJacobi.DoIteration | examples/collection/jacobi2d_vt.cc:151-217 | the flattened arrays hold the swept block of the protocol: four times every new value less the four old ones around it is the right-hand side, and the ghost cells are kept; the norm is that of the block |
| Jacobi2D.LinearPb2DJacobi.Exchange | examples/collection/jacobi2d_vt.cc:240-273 | receiving a face does to the arrays and counters what the protocol does to its element |
| Jacobi2D.LinearPb2DJacobi.DoIter | examples/collection/jacobi2d_vt.cc:275-327 | the faces handed to the runtime are those of the protocol, in order |
| Jacobi2D.StencilIsSweep | examples/collection/jacobi2d_vt.cc:172-191 | the five-point stencil on flattened indices is the stencil of the linear system |
| Jacobi1D.LinearPb1DJacobi.Init | examples/collection/jacobi1d_vt.cc:264-305 | the arrays and counters are those of the initial element of the protocol |
| Jacobi1D.LinearPb1DJacobi.DoIteration | examples/collection/jacobi1d_vt.cc:140-179 | the arrays hold the swept block of the protocol: twice every new value less the two old ones around it is the right-hand side, and the ends are kept; the norm is that of the block |
| Jacobi1D.LinearPb1DJacobi.Exchange | examples/collection/jacobi1d_vt.cc:204-225 | receiving a value does to the arrays and counters what the protocol does to its element |
| Jacobi1D.LinearPb1DJacobi.DoIter | examples/collection/jacobi1d_vt.cc:227-261 | the values handed to the runtime are the faces of the protocol, in order |
| JacobiArrays.Collection.constructor | examples/collection/jacobi1d_vt.cc:264-305 | elements that are constructed and initialised hold the initial state of the protocol, each in arrays of its own |
| JacobiArrays.Collection.Handle | examples/collection/jacobi1d_vt.cc:204-261 | handling any message that is on its way, on the arrays of a collection, takes arrays, counters and messages in flight to those of the next state of the protocol |
| JacobiArrays.Collection.RunSchedule | examples/collection/jacobi1d_vt.cc:140-261 | the same for every schedule: the arrays end as the protocol does |
| JacobiArrays.Collection.Iterate | examples/collection/jacobi1d_vt.cc:140-261 | the same for any number of epochs |
| JacobiArrays.Solve | examples/collection/jacobi1d_vt.cc:140-305 | constructing and initialising the elements and running any number of epochs under any schedules leaves arrays that, side by side, are the global array of the protocol, and the same number of Jacobi steps of the initial guess if the epochs are on time |
| CliSections.CheckParentSegments | lib/CLI/CLI/CLI11.hpp:8642-8689 | at a header, exactly the sections on the way to the new section are open afterwards, above what was left open before; no key is lost or moved |
| CliConfig.EnterSection | lib/CLI/CLI/CLI11.hpp:8714-8738 | a header keeps the reader's invariant: replaying the events gives the prefixes of the current path above what was left open; no key changes its place |
| CliConfig.AddKey | lib/CLI/CLI/CLI11.hpp:8787-8808 | a key is appended, or merged with the same key directly before it by adding its inputs at the end, and then stands where exactly the sections of its path are open above those left open before; keys under too many sections are dropped |
| CliConfig.NextLine | lib/CLI/CLI/CLI11.hpp:8706-8785 | reading one line, with the lines of an array that continues, is the line function of the specification |
| CliConfig.FromConfig | lib/CLI/CLI/CLI11.hpp:8692-8822 | for every file without keys named ++ or --: replaying the events never mismatches, leaves open exactly the abandoned sections, none if and only if no nested section is abandoned; the keys of the output, with their inputs and with the sections open where each stands, are exactly those of the file, in order |
| CliConfig.NestedIff | lib/CLI/CLI/CLI11.hpp:8714-8820 | no section stays open if and only if no section inside another one is left for [default] with a kept key or the end of the file next |
| CliConfig.NestsUnlessBack | lib/CLI/CLI/CLI11.hpp:8714-8820 | a file that never returns to [default] nests |
| CliConfig.StaysOpen | lib/CLI/CLI/CLI11.hpp:8714-8820 | a section a.b followed by [default] leaves the section a open |
| CliKeys.KeyInSection | lib/CLI/CLI/CLI11.hpp:8617-8640 | the path of the section is the beginning of the parents of every key in it |
| CliKeys.FullNameIff | lib/CLI/CLI/CLI11.hpp:8617-8640 | for texts without quotes, parents and name joined by dots are the section, a dot and the text of the key, or the text alone in [default], if and only if neither ends in a dot |
| CliKeys.CommentLine | lib/CLI/CLI/CLI11.hpp:8739-8746 | a line whose first character behind blanks is # or ; says nothing |
| CliKeys.HeaderLine | lib/CLI/CLI/CLI11.hpp:8706-8738 | [s] names the section s, or the default section if s is default in any case |
| CliKeys.DoubleHeaderLine | lib/CLI/CLI/CLI11.hpp:8706-8738 | double brackets name the same section |
| CliKeys.CommentBehind | lib/CLI/CLI/CLI11.hpp:8747-8785 | blanks and a comment behind a value do not matter |
| CliKeys.ArrayGoesOn | lib/CLI/CLI/CLI11.hpp:8747-8785 | an array that is not closed is read together with the next line |
| CliKeys.QuotedKey | lib/CLI/CLI/CLI11.hpp:8747-8785 | a quoted key without dots is the key without its quotes |
| CliKeys.FlagLine | lib/CLI/CLI/CLI11.hpp:8747-8785 | a key without a value has the value true |
| CliValues.SplitUp | lib/CLI/CLI/CLI11.hpp:483-533 | splitting outside quotes, with escapes, is the piece function of the specification |
| CliValues.IniJoin | lib/CLI/CLI/CLI11.hpp:8591-8615 | the written text is each argument in its written form with separators, in brackets if there are several |
| CliValues.Converted | lib/CLI/CLI/CLI11.hpp:8546-8588 | a printable argument is written bare, of plain characters only, or between quotes that do not occur in it |
| CliValues.AsItIsIff | lib/CLI/CLI/CLI11.hpp:8546-8588 | an argument is written as it is if and only if it is true, false, nan or inf, a number that does not start like a hexadecimal one, or a literal with a radix |
| CliValues.ElseQuoted | lib/CLI/CLI/CLI11.hpp:8546-8588 | any other argument is written between two double quotes, or single ones if it holds a double quote or is a single character |
| CliValues.RadixAsItIs | lib/CLI/CLI/CLI11.hpp:8546-8588 | hexadecimal, octal and binary literals are written as they are, whatever counts as a number |
| CliValues.EscapedPiece | lib/CLI/CLI/CLI11.hpp:483-533 | a text in which the quotes are escaped is read back from between quotes, for each of the three quotes and whatever follows |
| CliValues.ReadUndoesWrite | lib/CLI/CLI/CLI11.hpp:8546-8615 | reading a written value gives back every non-empty list of printable arguments |
| CliRoundTrip.SettingReadsBack | lib/CLI/CLI/CLI11.hpp:8747-8785 | a line name=value is read back as that name and those arguments |
| CliRoundTrip.FileReadsBack | lib/CLI/CLI/CLI11.hpp:8848-8876 | reading a file, split into lines, gives back every list of writable settings that was written to it |
| CliRoundTrip.ReadWritten | lib/CLI/CLI/CLI11.hpp:8692-8822 | reading a file of written settings without sections gives one entry for each, in order, with its name and arguments, and opens no section |
| CliOptions.NormCoarser | lib/CLI/CLI/CLI11.hpp:441-469 | names that are the same to an option stay the same to one that ignores more |
| CliOptions.MatchSymmetric | lib/CLI/CLI/CLI11.hpp:4839-4858 | sharing a name is symmetric |
| CliOptions.MatchingNameIff | lib/CLI/CLI/CLI11.hpp:4839-4858 | matching_name finds a name if and only if the options share one in the eyes of either |
| CliOptions.ShortSelectsIff | lib/CLI/CLI/CLI11.hpp:4893-4895 | a short name selects an option if and only if it is one of its short names, in either case if the option ignores case; underscores always count |
| CliRegistry.ApplyClean | lib/CLI/CLI/CLI11.hpp:4585-4628 | every operation, whether it succeeds or throws, keeps the options of an App free of shared names |
| CliRegistry.AlwaysClean | lib/CLI/CLI/CLI11.hpp:5889-5928 | after every sequence of add_option, ignore_case, ignore_underscore and remove_option no two options share a name |
| CliRegistry.AmbiguousIff | lib/CLI/CLI/CLI11.hpp:4893-4900 | some long name selects both of two options if and only if they have names that agree once everything is ignored that either ignores |
| CliRegistry.LongNameUnique | lib/CLI/CLI/CLI11.hpp:8043-8053 | a long name selects at most one of two registered options if the flags of one include those of the other |
| CliRegistry.ShortNameUnique | lib/CLI/CLI/CLI11.hpp:4893-4895 | a short name selects at most one registered option, whatever the options ignore |
| CliRegistry.TwoSelected | lib/CLI/CLI/CLI11.hpp:8043-8053 | the name A_B selects both a_b, which ignores case, and AB, which ignores underscores, and both can be registered |
| CliApp.App.SetFlags | lib/CLI/CLI/CLI11.hpp:4585-4628 | ignoring more is refused and rolled back if the option then shares a name with another one |
| CliApp.App.IgnoreCase | lib/CLI/CLI/CLI11.hpp:4585-4603 | the registry afterwards, and whether the call throws, are those of the specification |
| CliApp.App.IgnoreUnderscore | lib/CLI/CLI/CLI11.hpp:4609-4628 | the registry afterwards, and whether the call throws, are those of the specification |
| CliApp.App.AddOption | lib/CLI/CLI/CLI11.hpp:5889-5928 | a new option is refused if it shares a name; otherwise it takes over the defaults one by one, and stays registered when a default is refused |
| CliApp.App.RemoveOption | lib/CLI/CLI/CLI11.hpp:6227-6246 | exactly the given option is taken out, if it is there |
| CliParser.Parser.ParseSingle | lib/CLI/CLI/CLI11.hpp:7763-7803 | each call throws exactly where the rules refuse, and otherwise makes the one use that they prescribe for the next arguments; the parser's whole state afterwards is what that use gives |
| CliParser.Parser.ParsePositional | lib/CLI/CLI/CLI11.hpp:7833-7955 | the argument goes to the first required positional that lacks values, when positionals come at the end and need all that is left, otherwise to the first open one that accepts it; without one the call throws or the argument, with all that follow under a prefix command, is missing; nothing else changes |
| CliParser.Parser.ParseArg | lib/CLI/CLI/CLI11.hpp:8011-8181 | the first option that the name selects is used by the rules, or the call throws where they refuse; without one exactly that argument is missing |
| CliParser.Parser.UseOption | lib/CLI/CLI/CLI11.hpp:8077-8181 | the option gets the values given with its name, the fewest following arguments that make its minimum, the longest run of optional ones behind them that leaves enough for required positionals, and what closes them; a mark that ends them is taken, and the rest of a cluster is pushed back; it throws exactly for a refused flag value, too few values or a partial type |
| CliArgs.TakesShrinks | lib/CLI/CLI/CLI11.hpp:8176-8179 | every use of arguments leaves fewer characters and arguments, also when the rest of a cluster is pushed back |
| CliArgs.GathersOnce | lib/CLI/CLI/CLI11.hpp:8118-8157 | how many arguments an option takes for its minimum and beyond it, and whether a mark is taken, is determined |
| CliArgs.OneUse | lib/CLI/CLI/CLI11.hpp:7763-7803 | in no state can the parser make two different uses of the next arguments |
| CliArgs.RefusesIff | lib/CLI/CLI/CLI11.hpp:7763-8181 | the parser throws if and only if no use of the next argument is allowed |
| CliArgs.CompleteOnce | lib/CLI/CLI/CLI11.hpp:7648-7662 | at most one sequence of uses takes a whole argument vector, so results and missing arguments are determined |
| CliArgs.RefusedNeverCompletes | lib/CLI/CLI/CLI11.hpp:7648-7662 | an argument vector on which the parser throws has no sequence of uses that takes it |
| CliParser.Parser.Parse | lib/CLI/CLI/CLI11.hpp:7648-7662 | the loop ends on every argument vector; it succeeds if and only if the prescribed uses take all arguments, with the results and missing arguments that they give, and otherwise stops where the rules refuse |
| CliLaws.PartsMakeArg | lib/CLI/CLI/CLI11.hpp:2440-2480 | dashes, name, delimiter and value of an argument put together are the argument, cut at the first delimiter; for a short one dash, letter and rest |
| CliLaws.TextIff | lib/CLI/CLI/CLI11.hpp:7284-7306 | exactly which arguments are no options: those with another first character, with a sign behind the dashes that starts no name, and negative numbers unless a digit is a short name |
| CliLaws.RunLong | lib/CLI/CLI/CLI11.hpp:8011-8181 | the loop, run on --name=value for an option of one value, succeeds and leaves exactly that value, nothing for other options and nothing missing |
| CliLaws.LongThenValue | lib/CLI/CLI/CLI11.hpp:8011-8181 | for an option of one value, --name value leaves exactly the second argument, even if it looks like an option |
| CliLaws.ShortWithValue | lib/CLI/CLI/CLI11.hpp:8011-8181 | for an option of one value, -cvalue leaves exactly the value |
| CliLaws.ClusterStep | lib/CLI/CLI/CLI11.hpp:8099-8181 | in every state, a flag in front of a cluster gets its value and the rest of the cluster, with its dash, comes next |
| CliLaws.SomeTakesIff | lib/CLI/CLI/CLI11.hpp:7833-7890 | some positional takes a text if and only if one has fewer values than it must or takes any number, and accepts the text |
| CliLaws.TakerCan | lib/CLI/CLI/CLI11.hpp:7833-7890 | the positional that takes a text can, and is the first that can, or a required one where what is left must go to required ones |
| CliLaws.ExtraValues | lib/CLI/CLI/CLI11.hpp:8130-8157 | the values that an option takes beyond its minimum are acceptable texts, and where it could take more the next argument is none |
| CliLaws.PositionalsFill | lib/CLI/CLI/CLI11.hpp:7763-7890 | with one positional that takes any number, texts without brackets go to it one after the other, in order |
| CliLaws.MarkThenTexts | lib/CLI/CLI/CLI11.hpp:7763-7803 | the same behind --, also for texts that look like options |
| CliLaws.DelimitedResults | lib/CLI/CLI/CLI11.hpp:5297-5328 | non-empty parts joined by the delimiter of the option are taken apart again |
| CliLaws.BracketedResults | lib/CLI/CLI/CLI11.hpp:5297-5328 | non-empty members joined by commas, in brackets, are taken apart again |
| CliLaws.EmptyResultIff | lib/CLI/CLI/CLI11.hpp:5297-5328 | a text gives an empty result if and only if it is empty, however brackets and delimiters are nested |
| CliLaws.NoneRemainIff | lib/CLI/CLI/CLI11.hpp:7806-7818 | no arguments are held back if and only if every required positional has its values |
| CliLaws.MinNumIs | lib/CLI/CLI/CLI11.hpp:8091 | an option needs the values of one item of its type, or none if no item is expected |
| CliOverflow.OverflowCheckExact | lib/CLI/CLI/CLI11.hpp:3318-3330 | for signed and unsigned types, the test says overflow if and only if the product does not fit, with division rounded towards zero |
| CliOverflow.CheckedMultiply | lib/CLI/CLI/CLI11.hpp:3333-3347 | the call succeeds with the true product if and only if it fits, and otherwise leaves the operand as it was |
| MiWords.MaskIsMod | lib/mimalloc/src/alloc-aligned.c:24 | masking with the bits below a power of two is the remainder |
| MiWords.PowerOfTwoIff | lib/mimalloc/include/mimalloc-internal-tld.h:240-242 | the test accepts exactly the powers of two |
| MiWords.MulOverflow | lib/mimalloc/include/mimalloc-internal-tld.h:279-295 | overflow is reported if and only if the product exceeds SIZE_MAX, and otherwise the product is exact |
| MiWords.CountSizeOverflow | lib/mimalloc/include/mimalloc-internal-tld.h:298-309 | the same, and the total is SIZE_MAX on overflow |
| MiWords.RotateBack | lib/mimalloc/include/mimalloc-internal-tld.h:587-594 | rotating right undoes rotating left for every word and shift, whatever a shift by the whole width gives |
| MiWords.RotlBit | lib/mimalloc/include/mimalloc-internal-tld.h:587-594 | rotating left by n moves bit i to bit i + n, counted round the 64 bits |
| MiWords.MaskedBits | lib/mimalloc/include/mimalloc-internal-tld.h:596-604 | an encoded word less the first key, at bit i + k0 round the word, holds bit i of the pointer, flipped exactly where the second key has a 1 |
| MiWords.UnmaskedBits | lib/mimalloc/include/mimalloc-internal-tld.h:596-604 | bit i of a decoded word is found at that place, for every word |
| MiWords.DecodeUndoesEncode | lib/mimalloc/include/mimalloc-internal-tld.h:596-604 | decoding an encoded pointer gives the pointer back, for all keys; only the stand-in for NULL becomes NULL |
| MiHeap.RequestDoesNotWrap | lib/mimalloc/src/alloc-aligned.c:22-52 | the size that is over-allocated does not wrap around |
| MiHeap.RefusedIff | lib/mimalloc/src/alloc-aligned.c:17-30 | a request is refused if and only if it exceeds PTRDIFF_MAX bytes or the alignment is no power of two |
| MiHeap.PathIs | lib/mimalloc/src/alloc-aligned.c:17-63 | exactly which requests take the first free block, which are served by a size class that is aligned by itself, and which are over-allocated |
| MiHeap.AlignedIsAligned | lib/mimalloc/src/alloc-aligned.c:55-60 | the adjusted pointer plus the offset is a multiple of the alignment, also when the sum wraps, less than one alignment above the block |
| MiHeap.BlockZeroInit | lib/mimalloc/src/alloc.c:165-181 | all usable bytes are zero afterwards, also where only the first word is cleared because the page is marked zero |
| MiHeap.Heap.MallocAligned | lib/mimalloc/src/alloc-aligned.c:17-63 | a pointer that is handed out is aligned at its offset, new, and has the size behind it in its block, with all usable bytes zero if asked for, also in a page marked zero with a link; no other block changes; NULL exactly when the size exceeds PTRDIFF_MAX, the alignment is no power of two or the page allocator has no block |
| MiHeap.Heap.CallocAligned | lib/mimalloc/src/alloc-aligned.c:82-86 | NULL exactly when the product exceeds PTRDIFF_MAX, the alignment is no power of two or the page allocator has no block; otherwise all usable bytes are zero |
| MiHeap.Fill | lib/mimalloc/src/alloc-aligned.c:128-142 | the new block holds the old bytes as far as they fit and, if asked for, zeros behind them, also where the cleared word overlaps the copy; in a page marked zero under the condition of ZeroesIff |
| MiHeap.Heap.Realloc | lib/mimalloc/src/alloc.c:615-632 | the contents are preserved on every path, zeros follow if asked for; the block stays exactly when it is neither too small nor more than twice as large, NULL is returned exactly when it cannot stay and the request is denied, and then the old block is as it was |
| MiHeap.Heap.ReallocAlignedAt | lib/mimalloc/src/alloc-aligned.c:117-146 | contents and refusals as for Realloc, with the exact conditions for staying in place and for NULL; the result is aligned at its offset, at the place in the new block that the request prescribes; zeros follow if asked for, in a page marked zero under the condition of ZeroesIff |
| MiHeap.Heap.ReallocAligned | lib/mimalloc/src/alloc-aligned.c:148-153 | the offset is that of the old pointer, so for alignments above the word size the result is aligned if and only if the old pointer is; exact conditions for staying in place and for NULL |
| MiHeap.ZeroesIff | lib/mimalloc/src/alloc-aligned.c:128-142 | in a page marked zero, zeros follow the old bytes for every link if and only if nothing is added or the added bytes lie behind the first word of the block |
| MiHeap.AlwaysZeroesIff | lib/mimalloc/src/alloc-aligned.c:117-146 | over all blocks that suit a request: zeros always follow if nothing is added or the old block has eight usable bytes, and only then as soon as the address space has room for a block |
| MiHeap.TinyGrowthFails | lib/mimalloc/src/alloc-aligned.c:128-142 | on a heap, an allocation with one usable byte, grown with zeroing in a page marked zero, keeps bytes of the link |
| Transpose.Initialize | examples/collection/transpose.cc:142-148 | a block holds the global indices of its elements |
| Transpose.BlocksExist | examples/collection/transpose.cc:226-240 | only blocks of the collection are asked for |
| Transpose.AssignedOnce | examples/collection/transpose.cc:226-240 | no block is assigned to two places |
| Transpose.PartitionIff | examples/collection/transpose.cc:226-240 | every block is assigned to a node if and only if the group size divides the number of blocks |
| Transpose.SubSolveInfo.SubSolveHandler | examples/collection/transpose.cc:201-263 | local blocks of the node are put in place, each other block that is assigned to it, and no other block, is asked for once, and the kernel runs at once if and only if none is missing |
| Transpose.SubSolveInfo.SolveDataIncoming | examples/collection/transpose.cc:265-287 | a reply puts a block that is assigned to the node in place, inside the buffer, and the kernel runs if and only if it was the last one |
| Transpose.SubSolveInfo.RunKernel | examples/collection/transpose.cc:106-115 | the kernel finds at place x the value rank * (pieces / subSize) * blockSize + x |
| Transpose.Gather | examples/collection/transpose.cc:201-287 | from the request to solve on, with any blocks local and the replies to the requests in any order, the kernel runs exactly once, with exactly the blocks that are assigned to the node in place |
| Transpose.GatheredOnceIff | examples/collection/transpose.cc:226-240 | when all nodes of a group have gathered, each block is on exactly one of them if and only if the group size divides the number of blocks |
| TerminationRing.Nodes.TestHandler | examples/termination/termination_collective.cc:55-68 | a handler run changes the counter and the messages as the step function says |
| TerminationRing.HandleKeeps | examples/termination/termination_collective.cc:49-68 | every handler run keeps the balance between the messages sent to a node, handled by it and on their way |
| TerminationRing.RunsEnd | examples/termination/termination_collective.cc:55-68 | every run ends within a bound, and no counter ever drops below zero |
| TerminationRing.ExactRuns | examples/termination/termination_collective.cc:49-93 | for any first messages, at most one per node, a finished run has (K-1)*n handler runs plus one for each first message |
| TerminationRing.CollectiveRuns | examples/termination/termination_collective.cc:49-93 | the collective example stops after exactly K*n handler runs with all counters at 0, under every schedule |
| TerminationRing.RootedRuns | examples/termination/termination_rooted.cc:49-92 | the rooted example stops after exactly (K-1)*n + 1 handler runs |
| RecurHandler.Network.Deliver | tutorial/tutorial_3a.h:103-125 | a delivery replaces the message by the messages that its handler sends |
| RecurHandler.HandleUses | tutorial/tutorial_3a.h:103-125 | every handler run uses up potential, exactly one with two answers |
| RecurHandler.RunsEnd | tutorial/tutorial_3a.h:55-125 | a run from one message that lives t steps has at most 2^(t+1) - 1 handler runs, for every choice of answers and every delivery order |
| RecurHandler.BoundReached | tutorial/tutorial_3a.h:103-125 | the bound is reached by some run |
| RecurHandler.TargetsInRange | tutorial/tutorial_3a.h:81-125 | all targets of all runs are nodes if and only if there are at least two nodes |
| RecurHandler.TargetsOnRing | tutorial/tutorial_3a.h:81-125 | with two nodes or more, in every run, a message that lives t more steps is on its way to node (8 - t) mod n: every step goes to the next node round the ring |

## Left out

- Nothing was executed; all statements are about the models.
- The vt runtime: epochs, termination detection, reduction trees, migration, groups and the location manager enter only through the assumptions above.
- Floating-point rounding, and the sine function of the initial values.
- JacobiEpochs.EpochsAreJacobi: blocks without rows are excluded, because such a system has no unknowns.
- CliConfig.FromConfig: keys named ++ or -- are excluded, because a replay cannot tell them from section events; the section filter (`configSection`, `configIndex`) and separators other than the TOML defaults are not modelled.
- CliRoundTrip.FileReadsBack: the groups, descriptions, default values and subcommand sections that `to_config` can write are not modelled, only its lines of settings.
- CliValues.ReadUndoesWrite: the condition on arguments is sufficient but not necessary; some arguments outside it survive when they are written alone.
- CliParser.Parser.Parse: subcommands, option groups, fallthrough to a parent and callbacks triggered while parsing are not modelled.
- CliApp.App.AddOption: the splitting of the name string into short and long names, and defaults other than the two flags, are not modelled.
- CliApp.App.RemoveOption: the needs and excludes lists of other options are not modelled.
- MiHeap.Heap.MallocAligned: pages, segments, thread-free lists and statistics are not modelled; that size classes are aligned by themselves is an assumption.
- MiHeap.Heap.ReallocAlignedAt: zeros behind the old bytes are not promised where the code leaves the free-list link; the exact condition is ZeroesIff.
- JacobiArrays.Solve: whole collections are run on arrays for the one-dimensional solver only; for two and three dimensions the handlers of a single element are.
- The assertions of the transpose example on the number and parity of nodes.
- Help formatting, lexical casts, file and environment access of the command-line library.
- Other examples, tutorials and bundled libraries, which would add only easy members.
