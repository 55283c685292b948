# A verified model of the file organizer and the divisor lister

This project models the two pieces of logic in the repository:

- **The file organizer** (`Task1.py`). It walks a source directory tree. Every file whose extension is not empty is copied to `destination / <ext> / <file name>`. Here `<ext>` is the file's suffix with its leading dot removed, in lower case. Subdirectories are handled recursively with the same destination. Files with an empty extension are skipped. The module is `Organizer` in `organizer.dfy`:
  - the extension derivation is a chain of pure functions (`Suffix`, `StripLeadingDots`, `Lower`, `Extension`);
  - the source tree is a datatype of entries (`File(name)` or `Dir(name, entries)`);
  - the decisions made over the whole tree are pure recursive functions: the multiset of copies (`Routed`), the set of extension folders (`Folders`) and whether an error propagates (`Raises`);
  - the destination directory is a class `Destination` with a folder set and a multiset of completed copies. Its methods `MakeFolder`, `CopyFile`, `ProcessEntry` and `ProcessDirectory` update that state. Each is proved to add exactly what the pure functions say.
- **The divisor lister** (`Task2Multi.py`). `factors(n)` scans `1..n` and keeps every divisor. `factorize(*numbers)` returns one such list per input, in input order. The module is `Factorizer` in `factorizer.dfy`. `Factors` is the scanning loop, proved against the specification function `Divisors`. `Factorize` is the order-preserving map.

Modelling choices:
- The thread pools (`ThreadPoolExecutor`, `multiprocessing.Pool`) only change the order in which work runs. The model is sequential, and the copies are collected in a multiset, so their order is not recorded. `RoutedIgnoresOrder` proves that the order of a directory listing changes nothing.
- I/O errors are a parameter. `failing` is the set of source files whose `shutil.copy` raises.
  - The extension folder is made before the copy, so it exists even when the copy fails.
  - Every other task still finishes, because leaving the `with ThreadPoolExecutor()` block waits for all submitted futures.
  - `future.result()` re-raises the error at every level up to the root.
- `Path.suffix` follows pathlib's rule: the suffix starts at the last dot of the name, unless that dot is the first or the last character.

Behaviour of the code worth noting:
- A file is skipped not only when its name has no dot. It is also skipped when its only dot is the first character (`.bashrc`) or when the name ends with a dot.
- A failing copy does not stop its sibling tasks. They all complete, and the error is then raised by `process_directory` at every level.
- `factors(n)` is defined for every integer. It returns `[]` for `n <= 0`; it does not reject such input.

## Model

| member | source | states |
|---|---|---|
| `Factorizer.Factors` | Task2Multi.py:4-9 | The scan returns exactly the `d` with `1 <= d <= n` and `n % d == 0`, in strictly ascending order (so without duplicates). The result equals `Divisors(n)`, and it is `[]` for `n <= 0`. |
| `Factorizer.Divisors` | Task2Multi.py:4-9 | What `factors(n)` returns: its elements are exactly the positive divisors of `n`, and it is strictly increasing. `DivisorListUnique` shows that no other list has both properties, and `DivisorsEmpty` says when it is empty. |
| `Factorizer.DivisorsUpToMembers` | Task2Multi.py:5-8 | Loop invariant: after the scan has examined `1..k`, the list holds exactly the divisors of `n` in `1..k`. |
| `Factorizer.DivisorsUpToIncreasing` | Task2Multi.py:5-8 | Loop invariant: at every stage the collected list is strictly increasing. |
| `Factorizer.DivisorsEmpty` | Task2Multi.py:6-8 | `factors(n)` is empty exactly when `n <= 0`, since `range(1, n + 1)` is then empty and otherwise contains the divisor 1. |
| `Factorizer.DivisorsEnds` | Task2Multi.py:6-8 | For `n >= 1` the list is non-empty, starts with 1 and ends with `n`. |
| `Factorizer.DivisorListUnique` | Task2Multi.py:4-9 | Any strictly increasing list of exactly the positive divisors of `n` equals `factors(n)`. This is an independent definition of the result. |
| `Factorizer.CompleteFromSmall` | Task2Multi.py:4-9 | When the divisors up to m are known and m * (m + 1) > n, the small divisors and their partners n / q, arranged in strictly increasing order, are the whole of `factors(n)`. |
| `Factorizer.Divisors128` | Task2Multi.py:22 | `factors(128) == [1, 2, 4, 8, 16, 32, 64, 128]`. |
| `Factorizer.Divisors255` | Task2Multi.py:23 | `factors(255) == [1, 3, 5, 15, 17, 51, 85, 255]`. |
| `Factorizer.Divisors99999` | Task2Multi.py:24 | `factors(99999) == [1, 3, 9, 41, 123, 271, 369, 813, 2439, 11111, 33333, 99999]`. |
| `Factorizer.Factorize` | Task2Multi.py:11-14 | One result per input, in input order. Entry `k` is the divisor list of input `k`, whichever worker computed it. |
| `Factorizer.FactorizeChunks` | Task2Multi.py:13 | Splitting the inputs into chunks and joining the chunk results in order gives the same result as one pass over all inputs. |
| `Factorizer.FactorizeDemonstration` | Task2Multi.py:19-24 | `factorize(128, 255, 99999)` returns the three lists checked at lines 22-24, each in its input position. |
| `Organizer.Lower` | Task1.py:19 | ASCII lower-casing keeps the length. Upper-case letters move to lower case, every other character is unchanged, and no upper-case letter remains. |
| `Organizer.Suffix` | Task1.py:19 | The suffix is empty or has this shape: a dot, then at least one character with no further dot. It ends the name and is shorter than it. |
| `Organizer.StripLeadingDots` | Task1.py:19 | `lstrip('.')` removes a prefix made only of dots. The rest is a suffix of the input and does not start with a dot. |
| `Organizer.Extension` | Task1.py:19 | The derived extension contains no dot, so it never starts with one. It contains no upper-case ASCII letter. |
| `Organizer.ExtensionOfDottedName` | Task1.py:19 | For a name `stem.tail` with a non-empty stem and a non-empty, dot-free tail, the extension is the lower-cased tail. |
| `Organizer.ExtensionEmpty` | Task1.py:19-20 | The extension is empty exactly in two cases: no dot comes after the first character, or the name ends with a dot. |
| `Organizer.CopyDecision` | Task1.py:18-23 | `copy_file` copies nothing when the extension is empty. Otherwise it copies the file to `<ext>/<name>` with `name` unchanged, whatever the file's directory. |
| `Organizer.FileCopies` | Task1.py:18-25 | The copies `copy_file` completes for one file. There are none exactly when the extension is empty or the copy fails. Otherwise there is one, of this file, to `<ext>/<name>`. |
| `Organizer.Routed` | Task1.py:28-43 | The copies completed by `process_directory`. Each one is the copy of its own source file to `<ext>/<name>`, for a file that has an extension and does not fail. `RoutedCount` and `EachFileCopiedOnce` give how many there are. |
| `Organizer.Folders` | Task1.py:19-38 | The extension folders `process_directory` creates. Each one is a non-empty name without a dot. `FoldersAreExtensions` and `ExtensionsOfMembers` say which they are. |
| `Organizer.Raises` | Task1.py:28-43 | Whether `process_directory` raises. It never raises when no copy fails. `RaisesOnAnyFailure` gives the exact condition. |
| `Organizer.RoutedCount` | Task1.py:18-39 | Over the whole tree, the completed copies are exactly the copies of the walked files that have a non-empty extension and whose copy does not fail. Each one goes to `<ext>/<name>`, whatever the file's depth, and occurs as often as the walk visits that file. |
| `Organizer.FilePathsBelow` | Task1.py:31-34 | Every file the walk reaches lies below the directory it starts from, under one of that directory's own entries. |
| `Organizer.FilePathsDistinct` | Task1.py:31-34 | In a tree whose sibling names are distinct, the walk reaches every file path exactly once. |
| `Organizer.EachFileCopiedOnce` | Task1.py:31-39 | In a tree whose sibling names are distinct, each such file is copied exactly once, and nothing else is copied. |
| `Organizer.FoldersAreExtensions` | Task1.py:19-22 | The set of extension folders created is `ExtensionsOf` the walked file paths, whatever the tree's shape. A file with an empty extension creates no folder, and an empty tree creates none. |
| `Organizer.ExtensionsOfMembers` | Task1.py:19-22 | A folder name is in `ExtensionsOf(paths)` exactly when it is the non-empty extension of one of the files. |
| `Organizer.RaisesOnAnyFailure` | Task1.py:41-42 | `process_directory` raises exactly when the copy of some file with a non-empty extension, anywhere in the tree, fails. |
| `Organizer.RoutedAppend` | Task1.py:31-39 | Handling a listing in two parts gives the union of the parts' copies and folders, and raises if either part raises. |
| `Organizer.RoutedIgnoresOrder` | Task1.py:31-42 | Two listings with the same entries in different orders give the same copies, the same folders and the same error outcome. |
| `Organizer.Destination.MakeFolder` | Task1.py:22 | `mkdir(parents=True, exist_ok=True)` adds the folder. Making a folder that already exists changes nothing. |
| `Organizer.Destination.CopyFile` | Task1.py:18-25 | The new copies are exactly `FileCopies`: none for an empty extension or a failing copy, otherwise one to `<ext>/<name>`. The extension folder is added whenever the extension is non-empty, even if the copy then fails. The call raises exactly when the extension is non-empty and the copy fails. |
| `Organizer.Destination.ProcessEntry` | Task1.py:32-38 | A subdirectory entry goes to a recursive `process_directory` with the same destination; any other entry goes to `copy_file`. |
| `Organizer.Destination.ProcessDirectory` | Task1.py:28-43 | On return, every task has finished. The new copies are exactly `Routed`, the new folders exactly `Folders`, and an error is raised exactly when `Raises`. |

## Left out

- Thread pools, `as_completed`, `multiprocessing.Pool` and `cpu_count`: the model is sequential. The copies are kept in a multiset, and the order of a listing is proved irrelevant.
- Name collisions: which of two copies to the same `<ext>/<name>` survives depends on thread scheduling. The model keeps every copy and does not pick a survivor.
- Byte contents of the copies, and the system calls themselves (`mkdir`, `iterdir`, `is_dir`, `shutil.copy`). The file system is an abstract tree, and the destination is a folder set plus a multiset of copies.
- Symbolic links: a link to a directory counts as a directory when the tree is built. Link cycles are not represented.
- I/O errors other than a failing copy, such as a failing `mkdir` or `iterdir`.
- Which error propagates when several copies fail: that depends on completion order. The model only says whether one propagates.
- Logging (Task1.py:9-15, 24-25, 35, 39, 43) and timing (Task1.py:65-72, Task2Multi.py:18-20, 27): they only observe.
- The command-line entry point of Task1.py (lines 45-63): reading arguments or `input()`, the `dist` default, the source check with `sys.exit(1)`, and creating the destination.
- Unicode lower-casing beyond ASCII.
- A source tree that changes during the walk, or a destination that lies inside the source. The tree is a fixed value, separate from the destination. One case breaks this: running `Task1.py .` with the default `dist` (Task1.py:55, 62-63) creates `./dist` inside the source before the walk, and `iterdir` then lists it. Copies landing there may be walked again, or a file may be copied onto itself, where `shutil.copy` raises `SameFileError`. `EachFileCopiedOnce`, `RoutedCount` and `RaisesOnAnyFailure` do not describe such a run.
- Versions of pathlib whose `suffix` rule differs from the one above (for a name that ends with a dot or is made of leading dots and a tail, such as `..bashrc`): the model follows the rule stated above and gives `..bashrc` the extension `bashrc`.
- The check for 10651060 (Task2Multi.py:25) and the factorization of 23874392 (Task2Multi.py:19). Each would need its scan up to the square root (3264 and 4886) unrolled in a few hundred block lemmas, as `Divisors99999` does up to 316. The method is the same, so these add length but no new property.
