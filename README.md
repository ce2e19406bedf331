# OpenRAVE core: directory-list parsing

This project models `ParseDirectories` from OpenRAVE's core library.
OpenRAVE uses it to turn a search-path string such as `"/usr/share/openrave:/home/me/robots"`
into a list of directories. The function takes a C string that may be NULL and an output
vector, which it fills by reference. It works in four steps:

- It clears the vector.
- It returns `false` if the pointer is NULL.
- Otherwise it walks the string with a cursor. At each step it looks for the next separator
  with `std::string::find` and appends the text between the cursor and that separator. When
  there is no further separator, it appends the rest of the string and stops.
- It returns `true`.

The separator is `':'` on POSIX builds and `';'` on Windows builds.

The model has two modules:

- `DirectoryList` (`directory_list.dfy`) holds the specification. `Split` and `Join` are the
  textbook split on one character and its inverse. `Segments` is what the parser produces,
  defined one character at a time. `Unsplit` builds a directory-list string from separator-free
  directories. The lemmas relate these functions.
- `OpenRaveCore` (`openrave_core.dfy`) holds the parser itself. `ParseDirectories` is a method
  with the source's `while` loop, its `pos`/`newpos` cursor and its `break`. `Find` models
  `std::string::find`. The method is proved equal to `Segments`.

The parser does not behave like a textbook split, and the model follows the code:

- An empty string gives an empty list. The loop guard `pos < tmp.size()` fails at once.
- A trailing separator gives no trailing empty segment. After it, the cursor equals the size
  and the loop ends.
- Leading and consecutive separators do give empty segments.

`SegmentsIsSplit` proves the exact relation: `Segments` is the textbook split with its last
part removed exactly when that part is empty.

A textbook split would give one empty segment for `""`, and a trailing empty segment after a
trailing separator. The code at `src/libopenrave-core/openrave-core.cpp:41-56` does neither.
`SegmentsEmpty` and `ExampleTrailing` state what it does.

## Model

| member | source | states |
|---|---|---|
| `OpenRaveCore.ParseDirectories` | src/libopenrave-core/openrave-core.cpp:31-59 | Returns `false` with an empty list for a NULL input. Returns `true` for every other input. The list is then exactly `Segments` of the input. The caller's previous vector contents never reach the result. |
| `OpenRaveCore.Find` | src/libopenrave-core/openrave-core.cpp:44-46 | `std::string::find(c, pos)`: a reported index lies within `[pos, size)`. `None` stands for `npos`. |
| `OpenRaveCore.FindSpec` | src/libopenrave-core/openrave-core.cpp:44-46 | A reported index holds `c`, and `c` does not occur between `pos` and that index. `npos` is reported only when `c` does not occur from `pos` on. |
| `OpenRaveCore.ParseStep` | src/libopenrave-core/openrave-core.cpp:44-55 | One loop round keeps the parse complete. With a separator at `newpos`, the segments from the cursor on are `s[pos..newpos]` followed by the segments after the separator. With no separator, the text from the cursor to the end is the last segment. |
| `DirectoryList.Segments` | src/libopenrave-core/openrave-core.cpp:41-56 | The segment list the loop builds for a non-null input, defined one character at a time. It is empty exactly when the input is empty. |
| `DirectoryList.SegmentsIsSplit` | src/libopenrave-core/openrave-core.cpp:41-56 | The parser's segments equal the textbook split with its last part dropped exactly when that part is empty. |
| `DirectoryList.SegmentsEmpty` | src/libopenrave-core/openrave-core.cpp:41 | An empty input string yields no segments. |
| `DirectoryList.SegmentsStep` | src/libopenrave-core/openrave-core.cpp:44-55 | Let the first separator be at `i`. Then the first segment is the text before `i`, and the remaining segments are those of the text after `i`. |
| `DirectoryList.SegmentsLast` | src/libopenrave-core/openrave-core.cpp:48-53 | A non-empty input without a separator is a single segment, the whole input. |
| `DirectoryList.SegmentsConsecutive` | src/libopenrave-core/openrave-core.cpp:49-55 | Two separators in a row after a separator-free run `p` give `p`, then an empty segment, then the segments of the rest. |
| `DirectoryList.SegmentsSeparatorFree` | src/libopenrave-core/openrave-core.cpp:44-50 | No segment contains the separator. |
| `DirectoryList.SegmentsLength` | src/libopenrave-core/openrave-core.cpp:41-56 | The number of segments is the number of separators, plus one when the input is non-empty and does not end with the separator. |
| `DirectoryList.SegmentsJoin` | src/libopenrave-core/openrave-core.cpp:41-56 | Joining the segments with the separator, in order, reconstructs the input. When the input ends with the separator, one separator must be appended. |
| `DirectoryList.SegmentsUnsplit` | src/libopenrave-core/openrave-core.cpp:41-56 | Every list of separator-free directories is what the parser produces for `Unsplit` of that list. So each such list is produced by some input. |
| `DirectoryList.ExampleThree` | src/libopenrave-core/openrave-core.cpp:41-56 | `"/a:/b:/c"` with `PosixSeparator` (`':'`) gives `["/a", "/b", "/c"]`. |
| `DirectoryList.ExampleConsecutive` | src/libopenrave-core/openrave-core.cpp:49-55 | `"/a::/b"` with `PosixSeparator` (`':'`) gives `["/a", "", "/b"]`. |
| `DirectoryList.ExampleTrailing` | src/libopenrave-core/openrave-core.cpp:52-55 | `"/a:"` with `PosixSeparator` (`':'`) gives `["/a"]`, with no trailing empty segment. |
| `DirectoryList.ExampleWindows` | src/libopenrave-core/openrave-core.cpp:43-44 | With the Windows separator `';'`, `"C:/a;D:/b"` gives `["C:/a", "D:/b"]`, and `':'` is an ordinary character. |

## Left out

- `CreateEnvironment` (lines 19-26) is left out. It seeds random generators from the clock and builds an opaque `Environment`, and holds no logic of its own.
- The Coin3D mesh extraction, `_TriangulateCB` and `CreateTriMeshData` (lines 61-121), is left out for four reasons:
  - It is driven by a scene-graph traversal in a library whose code is not part of this model.
  - It uses floating-point matrix arithmetic and `sqrtf`.
  - It relies on a process-global transform.
  - Its only non-numeric step is the identity index loop, which is not worth modelling alone.
- The COLLADA reader and writer wrappers (lines 123-273) are left out. They forward to `ColladaReader` and `ColladaWriter`, which are not part of this model. Without COLLADA support they only log and return `false`.
- Conditional compilation of the separator (lines 43-47) is not modelled as preprocessor logic. The separator is a parameter of the model, and the constants `DirectoryList.PosixSeparator` and `DirectoryList.WindowsSeparator` record the two values. The worked examples use them.
- ParseDirectories: the caller's vector is passed in as `vdirs` and returned as `dirs`. In-place mutation through the reference is not modelled. Aliasing of that vector with anything else is not modelled either.
- ParseDirectories: the C string's NUL terminator is not modelled. The conversion `string tmp = pdirs` copies characters up to the first NUL, so in the source the input never contains `'\0'`. The model accepts any sequence of characters.
- Find: `std::string::size_type` and its `npos` value are modelled as an unbounded `nat` and `None`. Width limits of `size_t` are not modelled.
- Characters are Dafny `char` values, not the source's `char` bytes. No encoding is modelled.
