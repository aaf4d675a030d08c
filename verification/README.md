# uppasd_sweeper — a Dafny model of the temperature sweeper

`t_sweeper.py` runs a spin-simulation binary once per temperature. For each
temperature it creates a folder `T_<nnnn>` and copies a base template into it.
It then replaces the placeholder `TEMP` in every text file with the integer
temperature and runs the binary in that folder. Settings come from the
command line. A `key=value` config file can override them.

This project models that logic as pure Dafny functions and proves what it
promises:

- `text.dfy` (module `Text`) — the Python string operations the script
  relies on. These are `str.strip()` (with Python's full whitespace set),
  `str.split("=", 1)`, `startswith`/`endswith`, and `lower()` as far as the
  `.exe` test needs it.
- `decimal.dfy` (module `Decimal`) — `f"{n}"` and `f"{n:04d}"` for integers,
  and a reader that inverts both.
- `config_file.dfy` (module `ConfigFile`) — `parse_config_file`. It is
  modelled as a per-line parser plus a left-to-right fold into a map. The
  loop as written is a method. A reference definition ("the last line that
  defines the key") is proved equal to it.
- `placeholder.dfy` (module `Placeholder`) — `text.replace("TEMP", str(n))`,
  with Python's left-to-right, non-overlapping replacement.
- `workspace.dfy` (module `Workspace`) — one run's folder.
  - The folder tree is a map from relative paths to file bytes.
  - `PurePath.suffix` and the binary-extension filter decide which files are
    rewritten.
  - Decoding and encoding are a codec parameter; `decode` returning `None`
    stands for `UnicodeDecodeError`.
  - The template copy overlays the folder.
  - The folder name is `T_` plus `04d`.
- `sweep.dfy` (module `Sweep`) — the config-file overrides in `main`, at the
  level of the strings before numeric conversion, and the Windows `.exe`
  suffix.

## Model

| member | source | states |
|---|---|---|
| Text.Strip | t_sweeper.py:30-32 | `line.strip()` has no leading or trailing whitespace (Python's whitespace set) and is no longer than the line |
| Text.StripAround | t_sweeper.py:31-32 | stripping `a + [c] + b` around a non-space `c` strips only the outer ends: the result is `TrimStart(a) + [c] + TrimEnd(b)` |
| Text.StripIdempotent | t_sweeper.py:30-32 | `strip()` is idempotent: stripping a stripped string changes nothing |
| Text.StripKeepsNonSpace | t_sweeper.py:30-31 | a non-space character (the `=`) in a line is still in the stripped line, so the split after stripping always finds it |
| Text.SplitFirst | t_sweeper.py:31 | `split("=", 1)` succeeds exactly when the separator occurs, and its first part holds no separator |
| Text.SplitFirstParts | t_sweeper.py:31 | the two parts and the separator rebuild the string |
| Text.SplitBeforeFirst | t_sweeper.py:31 | for `a + "=" + b` with no `=` in `a`, the split is at that `=`, whatever `b` holds |
| Decimal.Format | t_sweeper.py:51 | `f"{n}"` is non-empty, starts with `-` exactly for negative `n` and then has at least one digit, is otherwise all digits, and has no leading zero unless it is `0` itself |
| Decimal.FormatRoundTrip | t_sweeper.py:51 | the decimal text reads back as `n`, so different temperatures give different texts |
| Decimal.Format04 | t_sweeper.py:71 | `04d` pads to width 4 with the sign counted in the width, never cuts a longer number, and keeps the sign |
| Decimal.Format04RoundTrip | t_sweeper.py:71 | the padded text reads back as `n` for every integer, negative ones included |
| Decimal.Format04FourDigits | t_sweeper.py:71 | from 0 to 9999 the padded text is exactly four digits |
| ConfigFile.ParseLine | t_sweeper.py:30-32 | a line contributes exactly when it holds `=` and its stripped form does not start with `#`; its key and value are stripped and the key holds no `=` |
| ConfigFile.ParseLineSplitsAtFirstEquals | t_sweeper.py:30-32 | `a + "=" + b` (no `=` in `a`, not a comment) gives key `strip(a)` and value `strip(b)`, even when `b` holds `=` or `#` |
| ConfigFile.ParseKeyValueLine | t_sweeper.py:29-32 | a line `key=value` followed only by whitespace, such as its newline, yields exactly that key and value |
| ConfigFile.ParseConfigExample | t_sweeper.py:27-33 | the file `tmin=100`, `tmax=300`, `tstep=100`, `# comment`, `binary=/opt/sim` parses to exactly those four settings; the comment adds nothing |
| ConfigFile.Collect | t_sweeper.py:27-32 | the dict the loop builds by `config[key] = value`: every stored key and value come from one of the lines' entries |
| ConfigFile.CollectAppend | t_sweeper.py:31-32 | one more line sets its key to its value in the dict and leaves every other key alone; a line that contributes nothing leaves the dict unchanged |
| ConfigFile.LastDefinition | t_sweeper.py:27-33 | reference definition: the index of the last line whose entry defines the key, or none when no line does |
| ConfigFile.CollectIsLastDefinition | t_sweeper.py:27-33 | the fold holds a key exactly when some line defines it, with the value of the last such line |
| ConfigFile.ParseConfig | t_sweeper.py:27-33 | every stored key and value is stripped, and no key holds `=` |
| ConfigFile.ParseConfigKeys | t_sweeper.py:29-32 | the key set is exactly the keys of contributing lines; comments, blank lines and lines without `=` add nothing |
| ConfigFile.ParseConfigLastWins | t_sweeper.py:29-32 | the stored value of a key comes from a line that no later line overrides |
| ConfigFile.ParseConfigFile | t_sweeper.py:27-33 | the loop as written computes the fold, and each key it stores holds the value of the last line defining that key |
| Placeholder.Substitute | t_sweeper.py:51-53 | after the replacement no `TEMP` remains, since a decimal number cannot form a new one with its neighbours; the text differs from the old one, and so is written back, exactly when the old text holds `TEMP` |
| Placeholder.ReplaceAtFirst | t_sweeper.py:51 | `str.replace` scans left to right: in `a + "TEMP" + b` with no `TEMP` in `a`, that occurrence becomes the replacement, `a` is kept, and the scan continues in `b`; with `ReplaceWithoutToken` this fixes the result for every text |
| Placeholder.SubstituteKeepsOut | t_sweeper.py:51 | the substitution adds only digits and a minus sign; any other character absent from the text stays absent |
| Placeholder.SubstituteIdempotent | t_sweeper.py:51 | substituting the same temperature twice is substituting it once |
| Placeholder.ReplaceWithoutToken | t_sweeper.py:51 | text without `TEMP` is returned unchanged |
| Placeholder.ReplaceTokenByItself | t_sweeper.py:51 | replacing `TEMP` by itself gives the input back |
| Placeholder.SubstituteExample | t_sweeper.py:51 | the template line `T=TEMP K` at 310 reads `T=310 K` |
| Workspace.Suffix | t_sweeper.py:48 | `PurePath.suffix` is empty, or a dot followed by at least one non-dot character ending a longer name |
| Workspace.SuffixIs | t_sweeper.py:48 | a name has a given extension exactly when it ends with it and has something before it |
| Workspace.SkippedIff | t_sweeper.py:48 | a file is skipped exactly when its name is longer than four characters and ends with `.exe` or `.bin`, case-sensitively |
| Workspace.NewContent | t_sweeper.py:47-56 | skipped and undecodable files keep their bytes; a decodable file is re-encoded with the substitution when it holds `TEMP` and is left untouched otherwise |
| Workspace.SubstituteTree | t_sweeper.py:47-56 | the folder keeps the same files, and each file's new content is as in `NewContent` |
| Workspace.NewContentIdempotent | t_sweeper.py:47-56 | a second substitution leaves a file as the first did, for a codec with universal-newline reading: decoded text holds no `\r`, and text without `\r` reads back as written |
| Workspace.SubstituteTreeIdempotent | t_sweeper.py:47-56 | the same for the whole folder, under the same condition on the codec |
| Workspace.Materialize | t_sweeper.py:75-85 | the folder ends up with the old files and the template files; template files overwrite same-named ones, and every file is substituted |
| Workspace.MaterializeIdempotent | t_sweeper.py:73-85 | preparing the same temperature's folder twice leaves it as preparing it once |
| Workspace.FolderName | t_sweeper.py:71 | the folder name is `T_` and at least four more characters, and it reads back to the temperature |
| Workspace.FolderNameInjective | t_sweeper.py:71 | distinct integer temperatures get distinct folders |
| Workspace.FolderNameLength | t_sweeper.py:71 | from 0 to 9999 the folder name is `T_` and four digits |
| Workspace.FolderNameNoTruncation | t_sweeper.py:71 | above 9999 and below -999 the folder name is `T_` and the plain decimal text, nothing cut |
| Sweep.Resolve | t_sweeper.py:159-164 | each of `tmin`, `tmax`, `tstep`, `steps`, `binary`, `base` takes the config value when the file has the key and keeps the command-line value otherwise |
| Sweep.ResolveIgnoresOtherKeys | t_sweeper.py:159-164 | keys other than those six have no effect |
| Sweep.ResolveEmpty | t_sweeper.py:152-164 | an empty config file leaves the command-line settings unchanged |
| Sweep.FromFile | t_sweeper.py:152-164 | end to end: without a file the command line is kept; with one, a setting takes the value of the last config line for its key, or the command-line value when no line sets it |
| Sweep.ExampleSettings | t_sweeper.py:115-164 | that file over the command-line defaults gives `tmin` 100, `tmax` 300, `tstep` 100, `binary` `/opt/sim`, while `steps` stays 11 and `base` stays `Base` |
| Sweep.WithExeSuffix | t_sweeper.py:181-182 | off Windows the path is kept; on Windows `.exe` is appended exactly when the lower-cased path does not already end with it, so the result always does |
| Sweep.WithExeSuffixIdempotent | t_sweeper.py:181-182 | adding the suffix a second time changes nothing |
| Sweep.UpperCaseExeKept | t_sweeper.py:181 | the test ignores case: `sim.EXE` is kept as it is |

## Left out

- Temperature mesh (t_sweeper.py:166-172). `np.arange` and `np.linspace` work on floating point and are not modelled. The `linspace` branch and the error exit cannot be reached: `any("tstep" in arg for arg in args.__dict__)` tests attribute names, and `tstep` is always one of them.
- Rounding. `int(round(t))` (banker's rounding of a float) is not modelled; the model starts from the integer it yields.
- Numeric conversion of the settings (`float(...)`, `int(...)` at t_sweeper.py:159-162). `Sweep.Resolve` works on the strings, so the model does not say which values make `main` fail. For example, `int("0.5")` for `tstep` raises `ValueError`. When a file is given but does not set `tstep`, `int(args.tstep)` truncates the command-line value, which argparse read as a float: `--tstep 2.5` gives a step of 2 and `--tstep 0.5` a step of 0. `--steps` is already read as an integer, so `int(args.steps)` changes nothing. `Sweep.Resolve` keeps the string `"2.5"` in that case.
- Filesystem effects: `mkdir`, `iterdir`, `copytree`/`copy2` metadata, `rglob` order, directories as entries, and `out.log`. The folder is a map from paths to bytes. An `out.log` left by an earlier run is one of the folder's existing files in `Workspace.Materialize`, and it is substituted like any other file.
- `Workspace.NewContent`: the text encoding is a codec parameter, not a fixed decoder. Newline translation by `read_text`/`write_text` is part of that codec. The idempotence lemmas need only what universal-newline reading gives: decoded text holds no `\r`, and text without `\r` reads back as written. A `UnicodeEncodeError` on writing is not modelled; `encode` is total.
- Running the binary (`subprocess.run`, `check=True`) and stopping at the first failing temperature. The order of runs is not modelled.
- Argument parsing, every `print`, `setup.py`, and opening the config file (the file is given as its lines).
- `pathlib` normalisation: `Path(args.binary)` turns `./uppasd` into `uppasd`. Paths are plain strings in `Sweep.WithExeSuffix`.
- `Text.Lower`: lower-cases ASCII letters only. No other character lowers to `.`, `e` or `x`, so the `.exe` test agrees with Python's `lower()`.
- `Workspace.Suffix`: a name ending in a dot has an empty suffix here, as in Python 3.12's `PurePath.suffix`, which takes the last dot only when it is neither the first nor the last character of the name. Other Python versions may treat a trailing dot differently, and no version is pinned.
