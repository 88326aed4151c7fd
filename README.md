# LoRA cover auto-updater, modelled in Dafny

`scripts/lora_cover.py` is an extension for the Stable Diffusion WebUI
(Forge / A1111). Each time the host saves a generated image, the extension:

1. reads the `<lora:NAME>` / `<lyco:NAME:weight>` tags from the prompt and the
   negative prompt;
2. picks the first, the last or all of the named models;
3. finds each model's file (`.safetensors`, `.pt`, `.ckpt`) in the model
   directories;
4. writes the image next to it as a `.png` cover. The image is converted to
   RGB, optionally centre-cropped to a square and optionally downscaled.

This project models that logic in Dafny and proves what it promises. It has
one module per part of the script:

| module | models |
|---|---|
| `Text` | The Python string operations the script uses: `lower` (ASCII), `strip` with Python's whitespace set, and the backslash replacement. |
| `Paths` | POSIX `basename`, `splitext` and `join`. |
| `Seqs` | Generic sequence helpers: map, concatenation, filter. |
| `Dedup` | The order-keeping, first-seen-wins duplicate removal. The script uses it twice: for model names (by lower-case key) and for directories (by absolute path). |
| `Tags` | The tag pattern `_TAG_RE`, written as a left-to-right scanner with `finditer`'s resumption rule, and `_extract_lora_names`. |
| `Dirs` | `_candidate_lora_dirs`. |
| `Resolve` | `_find_lora_file` and `_search_file_in_dirs`. |
| `Cover` | The size arithmetic of `_center_square_crop` and `_prepare_cover`. |
| `CoverUpdate` | The option defaults, target selection, the cover path, the save loop of `_save_cover_for_targets` and the callback `on_image_saved`. |

**How the environment is represented.**
- The disk is a value: the set of paths that are files, and for each root the
  listing `os.walk` yields, in its own order.
- `os.path.isdir` is a set.
- `os.path.abspath` is a function parameter.
- The host's option store is a `Settings` value.
- The outcome of writing a cover depends on a set of unwritable paths.

**Methods and the functions that specify them.** Where the script loops, the
model is a method with the same loop, proved equal to a specification
function:
- `ExtractLoraNames`, `CandidateLoraDirs`, `FindLoraFile` and
  `SearchFileInDirs`;
- `SaveCoverForTargets` and `OnImageSaved`.

The save loop's effect on the disk is the set of covers it writes, and later
targets see the covers written by earlier ones. The properties are proved as
lemmas about the specification functions.

A resize that Pillow refuses because a side would become zero (a very thin
image with a small `max_size`) raises inside the save loop's `try`. The
script reports it as a failed save, and so does the model: `PrepareCover`
returns `None` and the outcome is `WriteFailed`. The model computes the
scaled side with an exact integer floor. The script multiplies in floating
point, which can come out one pixel smaller: then a cropped square can end
one pixel short of square, and a square can fail with a limit of 1. The
properties of the downscale are stated for the floor (see "Left out").

## Model

| member | source | states |
|---|---|---|
| Text.Lower | scripts/lora_cover.py:225 | The lower-cased key has the name's length; each letter A-Z becomes its lower-case letter and every other character is kept. |
| Text.Strip | scripts/lora_cover.py:218 | The stripped name is the slice of the input between a leading and a trailing run of whitespace, and does not start or end with whitespace. |
| Text.ReplaceBackslash | scripts/lora_cover.py:180 | Same length; every backslash becomes `/` and every other character is unchanged, so no backslash is left. |
| Paths.Basename | scripts/lora_cover.py:182 | `os.path.basename` is a suffix of the path holding no `/`, the whole path when it has no `/`. |
| Paths.BasenameSpec | scripts/lora_cover.py:182 | The base name is exactly the part after the last `/`: a suffix without `/` that is the whole path or is preceded by `/`. |
| Paths.SplitExt | scripts/lora_cover.py:189 | `os.path.splitext` gives a root and an extension that concatenate to the path; the extension is empty or starts with its only dot and holds no `/`. |
| Paths.SplitNameSpec | scripts/lora_cover.py:202 | A file name has an extension exactly when some dot in it has a character other than a dot before it (`x.` has `.`, `.pt` and `..pt` have none). |
| Paths.SplitExtSpec | scripts/lora_cover.py:189 | `splitext` splits the path into root and extension, and the extension is non-empty exactly when the last component has a dot with a non-dot before it. |
| Paths.SplitExtOfBasename | scripts/lora_cover.py:202 | The extension of a path is that of its last component, and a bare file name splits as `SplitName` does. |
| Paths.Join | scripts/lora_cover.py:81 | `os.path.join(a, b)` ends with `b`. |
| Paths.JoinSpec | scripts/lora_cover.py:81 | An absolute `b` replaces `a`; otherwise the result is `a`, one `/` exactly when `a` is non-empty and does not end with `/`, then `b`. |
| Paths.SplitExtAppend | scripts/lora_cover.py:298 | Round trip: splitting a root followed by an extension gives back the root and the extension. |
| Paths.BasenameJoin | scripts/lora_cover.py:204 | The last component of `join(dirpath, fn)` is that of `fn`. |
| Paths.RootOfSplit | scripts/lora_cover.py:298 | The root from `splitext` is the directory part followed by the stem of the last component. |
| Dedup.DedupBy | scripts/lora_cover.py:221-229 | Keeps no two elements with the same key, and keeps only elements of the input. |
| Dedup.DedupKeys | scripts/lora_cover.py:221-229 | The keys kept are exactly the keys of the input (nothing is lost but repetitions). |
| Dedup.DedupKeepsFirstOccurrences | scripts/lora_cover.py:221-229 | The result is the input's first occurrences of each key, in input order, with their own spelling. |
| Dedup.DedupPrefix | scripts/lora_cover.py:221-229 | Appending input never changes what was already kept: the result for a prefix is a prefix of the result. |
| Tags.KeywordIgnoresCase | scripts/lora_cover.py:209 | A four-letter keyword matches exactly when it lower-cases to `lora` or `lyco` (`re.IGNORECASE`). |
| Tags.MatchTag | scripts/lora_cover.py:209 | A match at the start of a text captures a name of one or more characters without `:` or `>`, and fits in the text. |
| Tags.MatchRendered | scripts/lora_cover.py:209 | Every well-formed tag, whatever follows it, is matched with exactly its name and its length. |
| Tags.MatchIsRendered | scripts/lora_cover.py:209 | Conversely, every match is a well-formed tag with a valid keyword, name and optional weight. |
| Tags.Scan | scripts/lora_cover.py:217 | Every name `finditer` captures is non-empty and free of `:` and `>`. |
| Tags.ScanRendered | scripts/lora_cover.py:217 | A tag contributes its name and scanning resumes right after it (matches do not overlap). |
| Tags.ScanPlain | scripts/lora_cover.py:217 | Text without `<` contributes no name. |
| Tags.StripNamesValid | scripts/lora_cover.py:218-220 | Stripped, non-empty captures are still valid names and have no surrounding whitespace. |
| Tags.RawNamesShape | scripts/lora_cover.py:213-220 | Every collected name is a stripped, valid capture. |
| Tags.FindTagNames | scripts/lora_cover.py:217 | The `finditer` loop returns the captured names of `Scan`. |
| Tags.AppendStripped | scripts/lora_cover.py:217-220 | The loop appends the stripped, non-empty captures in order. |
| Tags.DedupIgnoringCase | scripts/lora_cover.py:221-229 | The `seen`/`uniq` loop computes the duplicate removal by lower-case key. |
| Tags.ExtractLoraNames | scripts/lora_cover.py:212-229 | `_extract_lora_names` returns the names of all texts, in order, deduplicated ignoring case. |
| Tags.ExtractedNamesShape | scripts/lora_cover.py:212-229 | Every extracted name is non-empty, stripped and free of `:` and `>`; no two are equal ignoring case. |
| Tags.EarlierTextsFirst | scripts/lora_cover.py:214-220 | Names from earlier texts (the positive prompt) come first, unchanged, in the names of all texts. |
| Tags.ScanEmpty | scripts/lora_cover.py:209-217 | `finditer` finds nothing exactly when the pattern matches at no position of the text, whether or not the text holds `<`. |
| Tags.PlainNoMatch | scripts/lora_cover.py:209 | Text without `<` holds no match. |
| Tags.NoTagNoNames | scripts/lora_cover.py:212-229 | Texts in which the pattern matches nowhere, empty texts included, yield no names. |
| Tags.TwoTags | scripts/lora_cover.py:212-229 | Two tags yield both names in order when they differ ignoring case, and only the first spelling when they do not. |
| Tags.ExampleTwoTags | scripts/lora_cover.py:209-229 | `<lora:foo>, <lyco:Bar:0.8>` yields `foo` and then `Bar`. |
| Dirs.PresentValuesMembers | scripts/lora_cover.py:72-75 | A stored directory is collected exactly when one of the three keys holds it and it is non-empty. |
| Dirs.CollectExplicitDirs | scripts/lora_cover.py:62-75 | The explicit-directory loop computes `ExplicitDirs`. |
| Dirs.CollectConventionalDirs | scripts/lora_cover.py:77-83 | The conventional-directory loop computes `ConventionalDirs`. |
| Dirs.CandidateLoraDirs | scripts/lora_cover.py:58-93 | `_candidate_lora_dirs` returns the absolute forms of the collected directories, first occurrence kept. |
| Dirs.CandidateDirsDistinct | scripts/lora_cover.py:85-93 | No candidate directory appears twice. |
| Dirs.CandidateDirsMembers | scripts/lora_cover.py:85-93 | A directory is a candidate exactly when it is the absolute form of a collected directory. |
| Dirs.ExplicitDirsFirst | scripts/lora_cover.py:58-93 | The normalised explicit directories come first, in their own order, before any conventional one. |
| Dirs.ExplicitDirsSpec | scripts/lora_cover.py:62-75 | The command-line directory comes first when set; the explicit directories are exactly it and the non-empty stored values. |
| Dirs.ConventionalDirsSpec | scripts/lora_cover.py:77-83 | A conventional directory is collected exactly when it exists and is one of `Lora`, `LyCORIS`, `LoRA`, `lycoris` under the models root. |
| Resolve.CleanName | scripts/lora_cover.py:180 | The cleaned name is the stripped name with each backslash turned into `/`, and holds no backslash. |
| Resolve.Resolve | scripts/lora_cover.py:177-178 | An empty name resolves to nothing. |
| Resolve.SearchWalk | scripts/lora_cover.py:200-204 | The nested walk loops return the first accepted file, joined to its directory. |
| Resolve.SearchFileInDirs | scripts/lora_cover.py:157-167 | `_search_file_in_dirs` computes `SearchFile`. |
| Resolve.FindLoraFile | scripts/lora_cover.py:170-206 | `_find_lora_file` computes `Resolve`. |
| Resolve.TryRoot | scripts/lora_cover.py:186-204 | One root: the direct relative match when the name has a `/`, then the walk. |
| Resolve.TryDirect | scripts/lora_cover.py:187-197 | The relative path as given when its extension is a model extension, else with each model extension in turn. |
| Resolve.TryExts | scripts/lora_cover.py:194-197 | The first existing file among the relative path with each given extension appended, tried in order (`TryDirect` passes `.safetensors`, `.pt`, `.ckpt`). |
| Resolve.FirstInDirSpec | scripts/lora_cover.py:162-164 | A directory yields nothing exactly when it has no accepted file; otherwise its first accepted file. |
| Resolve.FirstInWalkSpec | scripts/lora_cover.py:161-164 | A walk yields nothing exactly when no directory has an accepted file; otherwise the first such directory's result. |
| Resolve.ResolveFromAppend | scripts/lora_cover.py:185-206 | Roots are tried in order: a match in earlier roots hides all later roots. |
| Resolve.ResolveFromSpec | scripts/lora_cover.py:185-206 | Nothing is found exactly when no root matches; otherwise the result is some root's own match. |
| Resolve.ResolveHasModelExt | scripts/lora_cover.py:189-204 | A resolved model path ends with `.safetensors`, `.pt` or `.ckpt`, ignoring case. |
| Resolve.ResolveIsFile | scripts/lora_cover.py:185-204 | On a well-formed disk the result is a file. Its stem equals the name's last component ignoring case, unless the name holds `/` and the result is that name's direct match under some root. For a name without `/` the stem always equals the name. |
| Resolve.ResolveFindsStemMatch | scripts/lora_cover.py:199-206 | A file with a model extension and the name as stem (ignoring case) under any root is enough for the name to resolve. |
| Resolve.ModelFileMatches | scripts/lora_cover.py:202-203 | `stem + ext` with a model extension is accepted for every name equal to the stem ignoring case. |
| Resolve.SearchFileSpec | scripts/lora_cover.py:157-167 | Nothing is found exactly when no walked directory holds the file name; on a well-formed disk a result is a file with that name. |
| Cover.SquareBox | scripts/lora_cover.py:236-239 | The crop box lies inside the image, is a square of side min(w, h), and is centred (left margin equals the right one or is one less). |
| Cover.SquareBoxUnique | scripts/lora_cover.py:236-239 | The crop box is the only box with those three properties. |
| Cover.CenterSquareCrop | scripts/lora_cover.py:232-239 | The result is square with side min(w, h), keeps the colour mode, and is the image itself when already square. |
| Cover.Downscale | scripts/lora_cover.py:248-256 | No side grows, and with a positive limit neither side exceeds it. |
| Cover.DownscaleSpec | scripts/lora_cover.py:248-257 | Small images and a non-positive limit leave the size; otherwise the longer side (the width on ties) becomes the limit and the other is scaled by the same ratio, rounded down; nothing grows. |
| Cover.DownscaleIdempotent | scripts/lora_cover.py:248-257 | Downscaling again with the same limit changes nothing. |
| Cover.DownscaleSquare | scripts/lora_cover.py:248-257 | A square stays square: unchanged, or brought to the limit on both sides. |
| Cover.Cropped | scripts/lora_cover.py:243-247 | After conversion and the optional crop the image is RGB, square of side min(w, h) when cropping, unchanged in size otherwise. |
| Cover.PrepareCover | scripts/lora_cover.py:242-258 | A prepared cover is RGB; without a positive limit it is the converted, optionally cropped image and preparation cannot fail. |
| Cover.PrepareCoverShape | scripts/lora_cover.py:242-258 | A prepared cover is RGB, no larger than the image, square when cropping, and within the limit when it is positive. |
| Cover.PrepareCoverFails | scripts/lora_cover.py:250-257 | Preparation fails exactly when no crop is asked, a downscale is due and the shorter side would round to zero. |
| Cover.ExampleCrop | scripts/lora_cover.py:232-239 | A 400x300 image is cut to the box (50, 0, 350, 300). |
| Cover.ExampleDownscale | scripts/lora_cover.py:248-257 | 1000x500 with limit 500 becomes 500x250; limit 0 leaves it. |
| Cover.ExampleCropFirst | scripts/lora_cover.py:246-257 | Crop before downscale: 3x2 with crop and limit 2 becomes 2x2. |
| Cover.ExampleScaleFirst | scripts/lora_cover.py:248-257 | The opposite order would first give 2x1. |
| Cover.ExampleCropAfterScale | scripts/lora_cover.py:232-239 | Cropping the 2x1 that scaling first would give yields 1x1, so the order of crop and downscale matters. |
| CoverUpdate.DefaultsAgree | scripts/lora_cover.py:288-290 | The fallbacks for unset options equal the registered defaults: disabled, `first`, overwrite, no crop, no limit. |
| CoverUpdate.ParseTargetMode | scripts/lora_cover.py:333 | A missing or empty stored value selects `first`. |
| CoverUpdate.SelectTargets | scripts/lora_cover.py:334-339 | The targets are a non-empty selection of the extracted names; one name unless the mode is `all`. |
| CoverUpdate.TargetModeSpec | scripts/lora_cover.py:333-339 | `last` and `all` are selected exactly by those words in any letter case; anything else, missing or empty included, selects `first`. |
| CoverUpdate.ExampleTargetModeCase | scripts/lora_cover.py:333 | `LAST` and `Last` select the last name. |
| CoverUpdate.TargetsOfTexts | scripts/lora_cover.py:329-339 | Targets are extracted names, distinct ignoring case; `first` gives the first tag's name as written, `all` gives every name. |
| CoverUpdate.LastIsLatestNewName | scripts/lora_cover.py:335 | `last` picks the name first mentioned last: for tags `a`, `b`, `a` it is `b`. |
| CoverUpdate.CoverPath | scripts/lora_cover.py:298-299 | The cover path ends in `.png`, and what precedes it followed by the model's extension is the model path. |
| CoverUpdate.CoverPathOfModel | scripts/lora_cover.py:298-299 | The cover of `root + ext` is `root + ".png"`. |
| CoverUpdate.CoverBesideModel | scripts/lora_cover.py:298-299 | The cover is in the model file's directory and is named by the model's stem plus `.png`. |
| CoverUpdate.CoverIsNotModel | scripts/lora_cover.py:298-299 | A path with a model extension is never its own cover path, so the model file is never overwritten. |
| CoverUpdate.SaveCover | scripts/lora_cover.py:294-311 | One loop iteration computes `SaveOne`. |
| CoverUpdate.SaveCoverForTargets | scripts/lora_cover.py:287-311 | The loop computes the outcome of each target and the set of covers written, each target seeing the covers written before it. |
| CoverUpdate.OutcomesPrefix | scripts/lora_cover.py:293-311 | The outcomes of the first targets are the first outcomes: later targets change nothing earlier. |
| CoverUpdate.OutcomeAt | scripts/lora_cover.py:293-311 | Each outcome is the step on its target and the covers written before it. |
| CoverUpdate.OutcomesPerTarget | scripts/lora_cover.py:293-297 | Every target gets exactly one outcome, in order; a missing model does not stop the loop. |
| CoverUpdate.WrittenAreOutcomes | scripts/lora_cover.py:305-309 | The covers written are exactly those of the `CoverWritten` outcomes. |
| CoverUpdate.SaveOneSpec | scripts/lora_cover.py:294-311 | Missing model, kept, written and failed are classified exactly; the cover is the model path with `.png` and never the model itself; on a well-formed disk the model is a file. |
| CoverUpdate.NoCoverReplaced | scripts/lora_cover.py:301-303 | A step that writes only new covers never replaces an existing path and never writes one cover twice. |
| CoverUpdate.SaveStepWritesOnlyNew | scripts/lora_cover.py:301-303 | With overwriting off, the save step writes only covers that do not exist. |
| CoverUpdate.NoOverwriteKeepsExisting | scripts/lora_cover.py:301-303 | With overwriting off, no existing file or directory is replaced, no cover is written twice, and later targets are still handled. |
| CoverUpdate.OverwriteNeverKeeps | scripts/lora_cover.py:301-303 | With overwriting on, no cover is kept. |
| CoverUpdate.OnImageSaved | scripts/lora_cover.py:314-341 | The callback computes the outcomes and the covers written for `TargetsFor`. |
| CoverUpdate.QuietWhenInactive | scripts/lora_cover.py:316-331 | Without a generation, when disabled, or when the pattern matches nowhere in the prompts, nothing is looked up or written. |
| CoverUpdate.TargetsFor | scripts/lora_cover.py:316-339 | Targets exist only for a generation with the extension enabled, and each is an extracted name of its prompts. |
| CoverUpdate.TargetsForEmpty | scripts/lora_cover.py:316-331 | No target exactly when there is no generation, the extension is disabled, or the texts have no tag. |
| CoverUpdate.TargetsForSpec | scripts/lora_cover.py:333-339 | `last` gives the last extracted name, `all` all of them, any other or missing value the first. |
| CoverUpdate.FirstTagOfPrompt | scripts/lora_cover.py:323-339 | By default the target is the first tag of the positive prompt when that prompt has one. |
| CoverUpdate.EveryTargetReported | scripts/lora_cover.py:314-341 | Every target of an event gets one outcome, in order; the targets are extracted names. |

## Left out

- Host wiring is not modelled: `_register_options`, `on_ui_settings` and `_register_callbacks` (option registration with gradio widgets, callback registration). Only the registered default values are used, in `CoverUpdate.Registered`.
- `_get_opt` and `_get_models_root` probe host modules. Their results are parameters: the `Settings` value and the models root.
- `CoverUpdate.Settings` holds option values of their declared types. `bool(...)` or `int(...)` of values of other types, and an `int(...)` that raises, are not modelled.
- Pixels are not modelled: `convert`, `crop`, `resize` and `save` are Pillow calls. Only the width, the height and an "is RGB" flag are.
- `_build_pnginfo` (PNG metadata from the generation parameters) is not modelled, and neither is the metadata written with the cover.
- `_get_outputs_dirs` is not used by the rest of the script. Its loop removes duplicates first-seen as `Dedup.DedupBy` does, and also drops every absolute path that is not a directory.
- `Cover.Downscale` uses the exact integer floor `h * max_size / w` where the script computes `int(h * (max_size / w))` in floating point. The float product can be one less than the floor: `517 * (490 / 517)` is just below 490, so a 517x517 cover with limit 490 becomes 490x489, and `49 * (1 / 49)` is just below 1, so 49x49 with limit 1 asks for a height of 0.
- `Cover.DownscaleSquare`, `Cover.PrepareCoverShape` and `Cover.PrepareCoverFails` hold of the floor model only. For the script a cropped square can come out one pixel short of square, and preparation can fail with cropping on.
- `Text.Lower` lower-cases ASCII letters only. Python's `str.lower` also maps other letters.
- Filesystem access is abstract:
  - the file set stands for `os.path.isfile`;
  - a fixed listing per root stands for `os.walk` (its order and its error handling come from the listing);
  - a set stands for `os.path.isdir`;
  - a function stands for `os.path.abspath` and its dependence on the working directory.
- `Resolve.ResolveIsFile` and `Resolve.SearchFileSpec` state that a result is an existing file only on a disk whose walk listings agree with the file set (`WellFormed`).
- `Resolve.ResolveHasModelExt` states that the path ends with a model extension (ignoring case), not that `splitext` finds one. For a name ending in `/` the direct candidate is `root/sub/.pt`, which `splitext` reads as having no extension.
- `os.makedirs` before a save is not modelled as a separate step. The cover's directory is the model file's, which exists. A failing `makedirs`, resize or save is reported as `WriteFailed` through the unwritable set.
- Logging (`print`) and the outer `try/except` of `on_image_saved` are not modelled. The model raises nowhere else.
- `scripts/lora_cover_loader.py` is not part of this model: it only arranges imports and wraps the host script class.
