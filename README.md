# Panoramic viewer: a verified model of its state

`PanoramicViewer` (app.js) is a browser viewer for 360° panoramas built on
three.js. When rendering is stripped away, what remains is a small sequential
state machine, and this project models it:

- the list of panorama records: six presets loaded at start-up, uploads
  appended, records spliced out on delete;
- the gallery entry that carries the `active` mark;
- the camera's yaw `phi`, pitch `theta` and field of view;
- the drag-and-drop counter and the drop-zone flag;
- the auto-rotate and dragging flags, and the sphere's per-frame spin;
- the gallery counter text;
- the notifications raised.

The model has one method per event handler that changes state. Asynchronous
outcomes become explicit inputs: whether a file was read, its image decoded
and its texture loaded. The 100 ms timer that clears the dragging flag after
`mouseup` and `touchend` becomes its own event (`DragReleaseTimer`). The
`touchend` handler does nothing but schedule that timer, so
`DragReleaseTimer` stands for it. `Date.now() +
Math.random()` ids arrive as a parameter of fresh, distinct ids.

Modules, one file each:

- `Wrappers`: `Option` and sequence associativity.
- `Notifications`: which notices exist and their levels.
- `Text`: decimal rendering and the gallery counter label.
- `Orientation`: clamps, pointer, key and wheel steps, per-frame spin.
- `Gallery`: records and ids, `findIndex`/splice, the active mark.
- `Upload`: the validator, the batch filter, and what one batch of uploads
  adds.
- `Viewer`: the class `PanoramicViewer`. `Valid()` keeps these invariants:
  - ids are unique;
  - a marked entry is a listed record that has a sphere;
  - `theta` is in [-π/2, π/2];
  - `fov` is in [10, 100];
  - the counter text matches the list length.

The model reproduces these behaviours of the code as they are:

- The `webglcontextrestored` handler reloads `panoramas[0]`, not the record on
  display (`ContextRestored`).
- `deletePanorama` does not look at the record type. Presets are protected
  only because the delete button exists only on non-`default` entries
  (`DeleteButtonClicked`, `PresetsSurviveUserDelete`).
- `handleFiles` awaits each file in turn, so the first failed read or decode
  rejects the `await` and the remaining files are never loaded (`Completed`).
- The texture loader has no error callback: a texture that never arrives
  changes no modelled field. A loaded texture builds a new sphere, whose
  rotation starts at 0.
- `deletePanorama` reads the active mark after the deleted entry's element
  is gone, so deleting the displayed record reloads nothing and leaves no
  entry marked (`DeletePanorama`; see "## Findings").
- A touch move turns the view without a preceding `touchstart`. A mouse move
  turns it only while the button is held.
- ArrowUp clamps only from below and ArrowDown only from above.
- The counter reads "1 изображение" for one record and "N изображений"
  otherwise.
- An image of height 0 gives an aspect ratio of Infinity (warning) or, for
  0×0, NaN (no warning).

## Model

| member | source | states |
|---|---|---|
| Upload.Validate | app.js:269-282 | accepted iff the MIME type is jpeg/png/webp and size ≤ 52428800; too large iff supported type and size > 52428800; an unsupported type is never reported as too large |
| Upload.SizeCeilingIsInclusive | app.js:16-17 | exactly 52428800 bytes passes, one more byte is too large, image/gif is refused |
| Upload.ValidFiles | app.js:257 | the filter keeps only accepted files, all drawn from the input, and is empty exactly when no file is accepted |
| Upload.ValidFilesAppend | app.js:257 | the filter keeps input order: filtering a concatenation concatenates the filtered parts |
| Upload.SizeNotices | app.js:275-279 | the filter raises only "too large" notices, none exactly when no file is oversized, at most one per rejected file |
| Upload.SizeNoticesAppend | app.js:275-279 | the notices of a concatenation are those of its parts: one "too large" notice per oversized supported file, in input order |
| Upload.SizeNoticesQuiet | app.js:277 | the size notices show no error toast exactly when no file is too large |
| Upload.AspectWarning | app.js:293-294 | an exact 2:1 image is never warned about and an image no wider than tall always is; AspectWarningIff gives the exact band |
| Upload.AspectWarningIff | app.js:293-296 | for a positive height, the warning is raised exactly when width/height lies outside [1.9, 2.1] |
| Upload.AspectExamples | app.js:18-19 | 3000×1500 raises no warning, 3000×3000 raises one |
| Upload.FileNotices | app.js:289-329 | a decoded file ends with "uploaded", raises no loading error and warns iff the aspect test fails; a failed read or decode raises exactly one loading error |
| Upload.UserRecordFields | app.js:298-305 | an uploaded record carries the given id, the file name, the data URL, type 'user' and the file size, and two decodes give the same dimensions text exactly when their width and height agree |
| Upload.Completed | app.js:264-266 | the files before the first failure all decoded and the one at the count failed: the batch stops at the first rejected await |
| Upload.CompletedUnique | app.js:264-266 | that stopping point is unique |
| Upload.UploadRecordsShape | app.js:298-307 | one record per loaded file, in input order, typed 'user', with the file's name, size, data URL and the given fresh id |
| Upload.UploadNotices | app.js:291-313 | loading n files raises between n and 2n notices, never a loading or validation error |
| Upload.LastShownSpec | app.js:365-377 | the marked entry after a batch is one of the loaded records, and nothing new is marked exactly when no texture arrived |
| Upload.UploadStep | app.js:264-266 | one more loaded file extends the records, notices and shown id by that file's share |
| Upload.BatchRecordsShape | app.js:256-267 | a batch appends at most one record per valid file, exactly one each when all decode, none when no file is valid, all typed 'user' |
| Upload.BatchNoticesShape | app.js:256-267 | the aggregate validation error is raised iff no file is valid; a loading error iff some valid file failed |
| Upload.EmptyBatch | app.js:259-262 | with no valid file: no record, nothing shown, size notices then the validation error |
| Upload.NonEmptyBatch | app.js:264-266 | with a valid file: the batch's records, notices and shown record are those of the loading loop, plus a loading error if it stopped early |
| Upload.FileNoticesQuiet | app.js:291-313 | a file that decoded raises no error toast |
| Upload.UploadNoticesQuiet | app.js:291-313 | the files that loaded raise no error toast |
| Upload.BatchErrorLevel | app.js:256-329 | a batch shows an error toast exactly when a supported file is too large, no file is valid, or a valid file fails to load |
| Notifications.LevelOf | app.js:38-448 | the toast tag: error exactly for "too large", the validation error and the loading error; success exactly for the welcome and "uploaded"; warning for the aspect ratio and info for "deleted" |
| Gallery.PresetCatalog | app.js:337-344 | six presets p1..p6 with unique ids, type 'default', empty dimensions |
| Gallery.AppendFresh | app.js:298-307 | pushing a record with an unlisted id keeps ids unique and extends the id list by that id |
| Gallery.FreshIdsStep | app.js:299 | handing out one fresh id leaves the rest fresh for the grown list |
| Gallery.FindIndex | app.js:431 | the result is -1 or a position holding the id |
| Gallery.FindIndexFirst | app.js:431 | no position before the result holds the id |
| Gallery.FindIndexAbsent | app.js:431-432 | -1 exactly when no record holds the id |
| Gallery.RemovedCons | app.js:431-433 | splicing past a head that does not hold the id keeps that head |
| Gallery.Removed | app.js:431-433 | the splice never grows the list and keeps only listed records; RemovedIsWithout shows it equals filtering out the id under unique ids |
| Gallery.RemovedIsWithout | app.js:430-433 | with unique ids, the splice equals filtering out every record with that id (others kept in order) |
| Gallery.RemovedShape | app.js:430-433 | the splice keeps ids unique, drops the id, shrinks by one iff the id was listed, keeps every other id |
| Gallery.RemovedAt | app.js:433 | records before the found position stay, later ones shift down by one |
| Gallery.PresetsSurviveUserDelete | app.js:418-424 | deleting a non-'default' record never removes a preset |
| Gallery.NoActiveEntry | app.js:457-466 | marking an id that is not listed leaves no entry marked |
| Gallery.ExactlyOneActive | app.js:457-466 | with unique ids, marking a listed id marks exactly one entry |
| Gallery.MarkActive | app.js:457-466 | a mark is set iff the id has an entry, and it is that id |
| Gallery.MarkActiveMarksOne | app.js:457-466 | after `updateActiveGalleryItem` one entry is marked if the id is listed, none otherwise |
| Gallery.ActiveAfterRemovalAsWritten | app.js:430-455 | as written, the mark is cleared when it was on the deleted record and kept otherwise, so the id read back is never the deleted id and the reload branch never runs |
| Gallery.ActiveAfterDelete | app.js:440-445 | corrected rule: deleting the active record marks `panoramas[0]` once its texture loads; other deletes keep the mark, which stays listed |
| Gallery.DeleteKeepsOneActive | app.js:440-445 | after deleting under the corrected rule, a non-empty gallery that had a marked entry has exactly one again |
| Gallery.AsWrittenDeleteLeavesNoActiveEntry | app.js:435-445 | preset + active upload, delete the upload: as written no entry is marked, the corrected rule marks the preset |
| Text.DecimalString | app.js:471 | `${count}` is a non-empty digit string without a leading zero |
| Text.ParseDecimalString | app.js:471 | reading the decimal text back gives the count |
| Text.CounterText | app.js:468-472 | the label starts with the count in decimal and a space |
| Text.CounterTextInjective | app.js:468-472 | different counts give different labels |
| Text.SixImagesLabel | app.js:471 | six records read "6 изображений" |
| Text.DimensionsTextShape | app.js:304 | the dimensions text opens with the width in decimal and a space and ends with the height in decimal |
| Text.DimensionsTextInjective | app.js:304 | different dimensions never give the same text |
| Orientation.ClampPitch | app.js:111 | the pitch lands in [-π/2, π/2], is unchanged when already inside, and goes to the nearer bound otherwise |
| Orientation.ClampFov | app.js:160 | the fov lands in [10, 100], is unchanged when inside, and goes to the nearer bound otherwise |
| Orientation.PointerTurn | app.js:103-150 | yaw moves by 0.01·dx; pitch moves by 0.01·dy when that stays in range and is clamped otherwise |
| Orientation.KeyTurn | app.js:166-185 | Left/Right change only yaw by 0.1; Up/Down keep yaw, lower/raise pitch and keep a pitch in range in range; other keys change nothing |
| Orientation.ArrowUpStep | app.js:176-179 | ArrowUp moves a full step unless that passes -π/2 |
| Orientation.ArrowDownStep | app.js:180-182 | ArrowDown moves a full step unless that passes π/2 |
| Orientation.WheelFov | app.js:157-161 | fov stays in [10, 100], follows 0.05·deltaY when in range, never decreases on a positive delta nor increases on a negative one |
| Orientation.FrameRotation | app.js:557-561 | a frame adds 0.005 or nothing, and adds it iff auto-rotate is on, no drag is in progress and a sphere exists |
| Orientation.SpinIsLinear | app.js:553-561 | n frames with fixed flags add n·0.005 or nothing |
| Viewer.PanoramicViewer.constructor | app.js:3-44 | presets loaded, counter "6 изображений", fov 75, angles 0, flags clear, only the welcome notice, first preset marked once its texture loads |
| Viewer.PanoramicViewer.LoadPreloadedPanoramas | app.js:335-356 | pushes the six presets in order, then loads the first |
| Viewer.PanoramicViewer.LoadPanorama | app.js:358-382 | with the texture: new sphere at rotation 0, entry marked, fov 75; without: nothing changes |
| Viewer.PanoramicViewer.GalleryItemClicked | app.js:412-416 | clicking a listed entry, once its texture loads, marks exactly that entry, builds a sphere at rotation 0 and resets fov to 75; without the texture the mark, sphere, rotation and fov stay |
| Viewer.PanoramicViewer.UpdateActiveGalleryItem | app.js:457-466 | the mark goes to the id's entry if listed, and at most one entry is marked |
| Viewer.PanoramicViewer.UpdateGalleryCounter | app.js:468-472 | the counter shows the label of the list length |
| Viewer.PanoramicViewer.ResetCamera | app.js:480-485 | fov becomes 75; yaw and pitch are kept |
| Viewer.PanoramicViewer.ResetCameraClicked | app.js:211-214 | the reset button resets fov and keeps the invariants |
| Viewer.PanoramicViewer.ToggleAutoRotate | app.js:474-478 | the auto-rotate flag flips |
| Viewer.PanoramicViewer.Animate | app.js:553-561 | the sphere's rotation advances by the frame rule |
| Viewer.PanoramicViewer.MouseDown | app.js:95-101 | button held, position recorded, dragging set |
| Viewer.PanoramicViewer.MouseMove | app.js:103-117 | only while the button is held: angles turn by the pointer rule and the position is recorded; otherwise nothing changes |
| Viewer.PanoramicViewer.MouseUp | app.js:119-122 | button released; dragging still set until the timer fires |
| Viewer.PanoramicViewer.DragReleaseTimer | app.js:121 | the timer callback clears dragging |
| Viewer.PanoramicViewer.TouchStart | app.js:127-134 | touch position recorded, dragging set |
| Viewer.PanoramicViewer.TouchMove | app.js:136-150 | angles turn by the pointer rule, with no guard, and the position is recorded |
| Viewer.PanoramicViewer.Wheel | app.js:157-162 | fov follows the wheel rule; yaw and pitch are unchanged |
| Viewer.PanoramicViewer.KeyDown | app.js:165-185 | angles follow the key rule, pitch stays in range |
| Viewer.PanoramicViewer.DragEnter | app.js:232-235 | counter +1, zone active |
| Viewer.PanoramicViewer.DragOver | app.js:237-239 | zone active |
| Viewer.PanoramicViewer.DragLeave | app.js:241-246 | counter −1; the zone deactivates exactly when the counter reaches 0 |
| Viewer.PanoramicViewer.Drop | app.js:248-253 | counter 0, zone inactive, then the files are handled as one batch |
| Viewer.PanoramicViewer.HandleFiles | app.js:256-267 | the list grows by the batch's records, the notices by the batch's notices; the mark, sphere, rotation and fov follow the last texture that arrived |
| Viewer.PanoramicViewer.LoadValidFiles | app.js:264-266 | files load in order up to the first failure; list, notices and display as by the batch functions |
| Viewer.PanoramicViewer.LoadNextFile | app.js:265 | one turn of the loop: the next file's record (with its fresh id) and notices, and the remaining ids stay fresh |
| Viewer.PanoramicViewer.LoadPanoramaFromFile | app.js:284-333 | decoded: one 'user' record appended with name and size, warning iff the aspect test fails, loaded and marked once its texture arrives; failed: only a loading error |
| Viewer.PanoramicViewer.ContextRestored | app.js:71-75 | reloads `panoramas[0]` whatever was on display |
| Viewer.PanoramicViewer.DeletePanorama | app.js:430-449 | list becomes the splice; an absent id changes nothing (no counter update, no notice); otherwise "deleted" is raised and the mark follows the as-written rule (cleared if it was on the deleted record, kept otherwise); sphere, rotation and fov are untouched |
| Viewer.PanoramicViewer.DeletePanoramaCorrected | app.js:440-445 | the corrected delete: same list, counter and notices, and deleting the active record reloads and marks `panoramas[0]` once its texture arrives |
| Viewer.PanoramicViewer.DeleteButtonClicked | app.js:418-424 | deleting through the button splices out exactly that record and no preset, raises "deleted", and the mark follows the as-written rule; the display is untouched |

## Left out

- bot.py is not part of this model. It is a Telegram bot client with no stateable logic.
- three.js: the scene, renderer, sphere geometry, texture objects and `onWindowResize`. These are foreign library calls. Only their effect on state is modelled: a sphere exists, its rotation, and the camera's fov.
- `updateCameraRotation` (app.js:188-193) places the camera with `cos`/`sin` in doubles. The model stops at the `phi`/`theta` values.
- Floating point: angles, fov, rotation and aspect ratios are exact reals. π/2 is the double 1.5707963267948966, and only its sign matters to the proofs.
- DOM and presentation: gallery card HTML, notification wording, icons and timers, the loading indicator, the interaction hint. Notices are modelled as tags in order.
- Timers and callbacks: `setTimeout`, `requestAnimationFrame`, FileReader, Image and TextureLoader are modelled as explicit events and inputs.
- A texture that arrives after later events is treated as arriving at once. The race between overlapping loads is unmodelled, since the source leaves it undefined.
- Id generation: `Date.now() + Math.random()` becomes a parameter of fresh, distinct ids.
- `scene.remove` of the previous sphere is only reflected as the new sphere's rotation starting at 0.
- `loadPanorama` removes the current sphere from the scene before it requests the texture (app.js:360-362). A texture that never arrives therefore leaves a blank view while `currentPanorama` still names the removed mesh, which `animate` keeps spinning. The model does not track whether the sphere is in the scene, so `hasSphere` stays true.
- AspectWarning: the test uses exact reals. In JavaScript `Math.abs(2.1 - 2.0)` is 0.10000000000000009, so 2100×1000 and 1900×1000 are warned about there but not in the model.
- `resetCamera` also puts the camera at (1, 0, 0) (app.js:481-482). The view then faces yaw 0, pitch 0 while `phi` and `theta` keep their values, and the next drag or arrow key snaps back to them. The camera position is not modelled, so `ResetCamera` states only the fov and the kept angles.
- The unhandled promise rejection that a failed file causes is unmodelled. Only its effect, the end of the loop, is modelled.

## Findings

| source | as written | input that shows it | evidently intended | confidence | as-written member | corrected member |
|---|---|---|---|---|---|---|
| app.js:435-445 | the active test runs after the deleted entry's gallery element is removed, and compares the element's string `data-id` with the record's numeric id; for a deleted active upload it is never true, so no entry is marked and `panoramas[0]` is not reloaded | a preset followed by an upload marked active; delete the upload | when the active record is deleted and records remain, `panoramas[0]` is reloaded and marked | high, not executed | Gallery.ActiveAfterRemovalAsWritten, Gallery.AsWrittenDeleteLeavesNoActiveEntry, Viewer.PanoramicViewer.DeletePanorama | Gallery.ActiveAfterDelete, Gallery.DeleteKeepsOneActive, Viewer.PanoramicViewer.DeletePanoramaCorrected |
