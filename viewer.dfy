/**
 * The state of `PanoramicViewer` with its rendering stripped away: one
 * method per event handler. Asynchronous outcomes (file read, image decode,
 * texture load) and the 100 ms timer that ends a drag arrive as explicit
 * inputs or events.
 */
module Viewer {
  import opened Wrappers
  import opened Notifications
  import opened Text
  import opened Orientation
  import opened Gallery
  import opened Upload

  class PanoramicViewer {
    var panoramas: seq<Panorama>
    /** The id of the gallery entry that carries the `active` class, if any. */
    var activeId: Option<Id>
    /** Yaw and pitch: the closure variables of `setupControls`. */
    var phi: real
    var theta: real
    /** `camera.fov`, in degrees. */
    var fov: real
    /** Closure state of the mouse and touch handlers. */
    var isMouseDown: bool
    var mouseX: real
    var mouseY: real
    var lastTouchX: real
    var lastTouchY: real
    var isAutoRotating: bool
    var isDragging: bool
    var dragCounter: int
    /** Whether the drop zone carries its `active` class. */
    var dropZoneActive: bool
    /** `currentPanorama !== null`: a sphere mesh has been created. */
    var hasSphere: bool
    /** `currentPanorama.rotation.y`; a freshly built sphere starts at 0. */
    var rotationY: real
    /** The text of the gallery counter. */
    var galleryCount: string
    /** The notices raised so far, oldest first. */
    var notices: seq<Notice>

    ghost predicate Valid()
      reads this
    {
      UniqueIds(panoramas)
      && (activeId.Some? ==> activeId.value in Ids(panoramas) && hasSphere)
      && PitchInRange(theta)
      && FovInRange(fov)
      && galleryCount == CounterText(|panoramas|)
    }

    /** `new PanoramicViewer()`: camera at 75 degrees, the presets loaded, the welcome notice shown. */
    constructor (firstTextureLoaded: bool)
      ensures Valid()
      ensures panoramas == PresetCatalog() && galleryCount == "6 изображений"
      ensures activeId == (if firstTextureLoaded then Some(PresetCatalog()[0].id) else None)
      ensures hasSphere == firstTextureLoaded && rotationY == 0.0
      ensures phi == 0.0 && theta == 0.0 && fov == DefaultFov
      ensures !isMouseDown && !isAutoRotating && !isDragging
      ensures dragCounter == 0 && !dropZoneActive
      ensures notices == [Welcome]
    {
      panoramas := [];
      activeId := None;
      phi, theta, fov := 0.0, 0.0, DefaultFov;
      isMouseDown := false;
      mouseX, mouseY, lastTouchX, lastTouchY := 0.0, 0.0, 0.0, 0.0;
      isAutoRotating, isDragging := false, false;
      dragCounter, dropZoneActive := 0, false;
      hasSphere, rotationY := false, 0.0;
      notices := [];
      new;
      LoadPreloadedPanoramas(firstTextureLoaded);
      UpdateGalleryCounter();
      notices := notices + [Welcome];
      SixImagesLabel();
    }

    /** `loadPreloadedPanoramas`, run once from the constructor on an empty list. */
    method LoadPreloadedPanoramas(firstTextureLoaded: bool)
      requires panoramas == [] && activeId == None
      requires PitchInRange(theta) && FovInRange(fov)
      modifies this`panoramas, this`activeId, this`fov, this`hasSphere, this`rotationY, this`galleryCount
      ensures Valid()
      ensures panoramas == PresetCatalog()
      ensures activeId == (if firstTextureLoaded then Some(PresetCatalog()[0].id) else None)
      ensures hasSphere == (old(hasSphere) || firstTextureLoaded)
      ensures rotationY == (if firstTextureLoaded then 0.0 else old(rotationY))
      ensures fov == (if firstTextureLoaded then DefaultFov else old(fov))
    {
      var preloaded := PresetCatalog();
      var i := 0;
      while i < |preloaded|
        invariant 0 <= i <= |preloaded|
        invariant panoramas == preloaded[..i]
        modifies this`panoramas
      {
        panoramas := panoramas + [preloaded[i]];
        i := i + 1;
      }
      if |preloaded| > 0 {
        assert panoramas == preloaded && Ids(preloaded)[0] == preloaded[0].id;
        LoadPanorama(preloaded[0], firstTextureLoaded);
      }
      UpdateGalleryCounter();
    }

    /**
     * `loadPanorama`: once the texture has loaded, a new sphere replaces the
     * old one, the record's gallery entry is marked and the camera is reset.
     * The loader has no error callback, so a failed load changes nothing here.
     */
    method LoadPanorama(p: Panorama, textureLoaded: bool)
      modifies this`activeId, this`fov, this`hasSphere, this`rotationY
      ensures textureLoaded ==> hasSphere && rotationY == 0.0 && fov == DefaultFov
      ensures textureLoaded ==> activeId == MarkActive(panoramas, p.id)
      ensures !textureLoaded ==> hasSphere == old(hasSphere) && rotationY == old(rotationY)
      ensures !textureLoaded ==> fov == old(fov) && activeId == old(activeId)
    {
      if textureLoaded {
        hasSphere, rotationY := true, 0.0;
        UpdateActiveGalleryItem(p.id);
        ResetCamera();
      }
    }

    /** Clicking a gallery entry loads its record; the entry exists only while the record is listed. */
    method GalleryItemClicked(p: Panorama, textureLoaded: bool)
      requires Valid() && p in panoramas
      modifies this`activeId, this`fov, this`hasSphere, this`rotationY
      ensures Valid()
      ensures textureLoaded ==> activeId == Some(p.id) && ActiveCount(panoramas, activeId) == 1
      ensures textureLoaded ==> hasSphere && rotationY == 0.0 && fov == DefaultFov
      ensures !textureLoaded ==> activeId == old(activeId) && fov == old(fov)
      ensures !textureLoaded ==> hasSphere == old(hasSphere) && rotationY == old(rotationY)
    {
      assert p.id in Ids(panoramas);
      LoadPanorama(p, textureLoaded);
      if textureLoaded {
        ExactlyOneActive(panoramas, p.id);
      }
    }

    /** `updateActiveGalleryItem`: only the entry holding `id` is marked, and none if it is gone. */
    method UpdateActiveGalleryItem(id: Id)
      modifies this`activeId
      ensures activeId == MarkActive(panoramas, id)
      ensures UniqueIds(panoramas) ==> ActiveCount(panoramas, activeId) <= 1
    {
      activeId := MarkActive(panoramas, id);
      if UniqueIds(panoramas) {
        MarkActiveMarksOne(panoramas, id);
      }
    }

    /** `updateGalleryCounter`. */
    method UpdateGalleryCounter()
      modifies this`galleryCount
      ensures galleryCount == CounterText(|panoramas|)
    {
      galleryCount := CounterText(|panoramas|);
    }

    /** `resetCamera`: the field of view returns to 75; yaw and pitch are kept. */
    method ResetCamera()
      modifies this`fov
      ensures fov == DefaultFov
      ensures phi == old(phi) && theta == old(theta)
    {
      fov := DefaultFov;
    }

    /** The reset button. */
    method ResetCameraClicked()
      requires Valid()
      modifies this`fov
      ensures Valid() && fov == DefaultFov
      ensures phi == old(phi) && theta == old(theta)
    {
      ResetCamera();
    }

    /** `toggleAutoRotate`. */
    method ToggleAutoRotate()
      requires Valid()
      modifies this`isAutoRotating
      ensures Valid() && isAutoRotating == !old(isAutoRotating)
    {
      isAutoRotating := !isAutoRotating;
    }

    /** The spin step of one `animate` frame. */
    method Animate()
      requires Valid()
      modifies this`rotationY
      ensures Valid()
      ensures rotationY == FrameRotation(old(rotationY), isAutoRotating, isDragging, hasSphere)
    {
      if isAutoRotating && !isDragging {
        if hasSphere {
          rotationY := rotationY + AutoRotateSpeed * 0.01;
        }
      }
    }

    method MouseDown(x: real, y: real)
      requires Valid()
      modifies this`isMouseDown, this`mouseX, this`mouseY, this`isDragging
      ensures Valid() && isMouseDown && isDragging && mouseX == x && mouseY == y
    {
      isMouseDown := true;
      mouseX, mouseY := x, y;
      isDragging := true;
    }

    /** Turns the view only while the button is held; the pitch stays clamped. */
    method MouseMove(x: real, y: real)
      requires Valid()
      modifies this`phi, this`theta, this`mouseX, this`mouseY
      ensures Valid()
      ensures old(isMouseDown) ==>
        Angles(phi, theta) == PointerTurn(Angles(old(phi), old(theta)), x - old(mouseX), y - old(mouseY))
        && mouseX == x && mouseY == y
      ensures !old(isMouseDown) ==>
        phi == old(phi) && theta == old(theta) && mouseX == old(mouseX) && mouseY == old(mouseY)
    {
      if !isMouseDown {
        return;
      }
      var turned := PointerTurn(Angles(phi, theta), x - mouseX, y - mouseY);
      phi, theta := turned.phi, turned.theta;
      mouseX, mouseY := x, y;
    }

    /** Releasing the button stops turning; the drag flag clears only when the release timer fires. */
    method MouseUp()
      requires Valid()
      modifies this`isMouseDown
      ensures Valid() && !isMouseDown && isDragging == old(isDragging)
    {
      isMouseDown := false;
    }

    /** The callback of the 100 ms timer that `mouseup` and `touchend` schedule. */
    method DragReleaseTimer()
      requires Valid()
      modifies this`isDragging
      ensures Valid() && !isDragging
    {
      isDragging := false;
    }

    method TouchStart(x: real, y: real)
      requires Valid()
      modifies this`lastTouchX, this`lastTouchY, this`isDragging
      ensures Valid() && isDragging && lastTouchX == x && lastTouchY == y
    {
      lastTouchX, lastTouchY := x, y;
      isDragging := true;
    }

    /** Unlike the mouse, a touch move turns the view without checking for a preceding start. */
    method TouchMove(x: real, y: real)
      requires Valid()
      modifies this`phi, this`theta, this`lastTouchX, this`lastTouchY
      ensures Valid()
      ensures Angles(phi, theta) == PointerTurn(Angles(old(phi), old(theta)), x - old(lastTouchX), y - old(lastTouchY))
      ensures lastTouchX == x && lastTouchY == y
    {
      var turned := PointerTurn(Angles(phi, theta), x - lastTouchX, y - lastTouchY);
      phi, theta := turned.phi, turned.theta;
      lastTouchX, lastTouchY := x, y;
    }

    /** Zoom: only the field of view changes, and it stays in [10, 100]. */
    method Wheel(deltaY: real)
      requires Valid()
      modifies this`fov
      ensures Valid() && fov == WheelFov(old(fov), deltaY)
      ensures phi == old(phi) && theta == old(theta)
    {
      var next := fov + deltaY * WheelSensitivity;
      fov := Max(MinFov, Min(MaxFov, next));
    }

    method KeyDown(code: string)
      requires Valid()
      modifies this`phi, this`theta
      ensures Valid()
      ensures Angles(phi, theta) == KeyTurn(Angles(old(phi), old(theta)), code)
    {
      match code {
        case "ArrowLeft" => phi := phi - KeyStep;
        case "ArrowRight" => phi := phi + KeyStep;
        case "ArrowUp" => theta := Max(-HalfPi, theta - KeyStep);
        case "ArrowDown" => theta := Min(HalfPi, theta + KeyStep);
        case _ =>
      }
    }

    method DragEnter()
      requires Valid()
      modifies this`dragCounter, this`dropZoneActive
      ensures Valid() && dragCounter == old(dragCounter) + 1 && dropZoneActive
    {
      dragCounter := dragCounter + 1;
      dropZoneActive := true;
    }

    method DragOver()
      requires Valid()
      modifies this`dropZoneActive
      ensures Valid() && dropZoneActive
    {
      dropZoneActive := true;
    }

    /** The zone is deactivated exactly when the counter comes back to 0. */
    method DragLeave()
      requires Valid()
      modifies this`dragCounter, this`dropZoneActive
      ensures Valid() && dragCounter == old(dragCounter) - 1
      ensures dragCounter == 0 ==> !dropZoneActive
      ensures dragCounter != 0 ==> dropZoneActive == old(dropZoneActive)
    {
      dragCounter := dragCounter - 1;
      if dragCounter == 0 {
        dropZoneActive := false;
      }
    }

    /** What `handleFiles` leaves behind, relative to the state it started from. */
    twostate predicate HandledFiles(files: seq<File>, outcomes: seq<Decode>, freshIds: seq<Id>)
      requires SameLength(ValidFiles(files), outcomes, freshIds)
      reads this
    {
      var shown := BatchShown(files, outcomes, freshIds);
      panoramas == old(panoramas) + BatchRecords(files, outcomes, freshIds)
      && notices == old(notices) + BatchNotices(files, outcomes)
      && activeId == (if shown.Some? then shown else old(activeId))
      && hasSphere == (old(hasSphere) || shown.Some?)
      && rotationY == (if shown.Some? then 0.0 else old(rotationY))
      && fov == (if shown.Some? then DefaultFov else old(fov))
    }

    /**
     * A drop resets the counter, deactivates the zone and hands the files to
     * `handleFiles`.
     */
    method Drop(files: seq<File>, outcomes: seq<Decode>, freshIds: seq<Id>)
      requires Valid()
      requires SameLength(ValidFiles(files), outcomes, freshIds)
      requires FreshIds(panoramas, freshIds)
      modifies this`dragCounter, this`dropZoneActive
      modifies this`panoramas, this`activeId, this`fov, this`hasSphere, this`rotationY, this`galleryCount, this`notices
      ensures Valid() && dragCounter == 0 && !dropZoneActive
      ensures HandledFiles(files, outcomes, freshIds)
    {
      dragCounter := 0;
      dropZoneActive := false;
      HandleFiles(files, outcomes, freshIds);
    }

    /**
     * `handleFiles`: filter, then load the valid files one at a time in input
     * order. `outcomes[i]` and `freshIds[i]` belong to the i-th valid file.
     */
    method HandleFiles(files: seq<File>, outcomes: seq<Decode>, freshIds: seq<Id>)
      requires Valid()
      requires SameLength(ValidFiles(files), outcomes, freshIds)
      requires FreshIds(panoramas, freshIds)
      modifies this`panoramas, this`activeId, this`fov, this`hasSphere, this`rotationY, this`galleryCount, this`notices
      ensures Valid()
      ensures HandledFiles(files, outcomes, freshIds)
    {
      var validFiles := ValidFiles(files);
      notices := notices + SizeNotices(files);
      if |validFiles| == 0 {
        EmptyBatch(files, outcomes, freshIds);
        AppendAssoc(old(notices), SizeNotices(files), [ValidationError]);
        notices := notices + [ValidationError];
        return;
      }
      ghost var k := Completed(outcomes);
      ghost var ns := notices;
      ghost var loading := UploadNotices(validFiles, outcomes, k);
      ghost var failure := if k < |validFiles| then [LoadingError] else [];
      NonEmptyBatch(files, outcomes, freshIds);
      LoadValidFiles(validFiles, outcomes, freshIds);
      AppendAssoc(ns, loading, failure);
      AppendAssoc(old(notices), SizeNotices(files), loading + failure);
    }

    /**
     * The `for ... of validFiles` loop of `handleFiles`: each file is awaited
     * in turn, and the first failed read or decode rejects the `await` and
     * ends the loop, so the files after it are never loaded.
     */
    method LoadValidFiles(validFiles: seq<File>, outcomes: seq<Decode>, freshIds: seq<Id>)
      requires Valid()
      requires SameLength(validFiles, outcomes, freshIds)
      requires FreshIds(panoramas, freshIds)
      modifies this`panoramas, this`activeId, this`fov, this`hasSphere, this`rotationY, this`galleryCount, this`notices
      ensures Valid()
      ensures var k := Completed(outcomes);
        panoramas == old(panoramas) + UploadRecords(validFiles, outcomes, freshIds, k)
        && notices == old(notices) + UploadNotices(validFiles, outcomes, k)
           + (if k < |validFiles| then [LoadingError] else [])
      ensures var shown := LastShown(outcomes, freshIds, Completed(outcomes));
        activeId == (if shown.Some? then shown else old(activeId))
        && hasSphere == (old(hasSphere) || shown.Some?)
        && rotationY == (if shown.Some? then 0.0 else old(rotationY))
        && fov == (if shown.Some? then DefaultFov else old(fov))
    {
      var i := 0;
      var failed := false;
      while i < |validFiles| && !failed
        invariant 0 <= i <= Completed(outcomes)
        invariant failed ==> i == Completed(outcomes) < |validFiles|
        invariant Valid()
        invariant FreshIds(panoramas, freshIds[i..])
        invariant panoramas == old(panoramas) + UploadRecords(validFiles, outcomes, freshIds, i)
        invariant !failed ==> notices == old(notices) + UploadNotices(validFiles, outcomes, i)
        invariant failed ==> notices == old(notices) + UploadNotices(validFiles, outcomes, i) + [LoadingError]
        invariant var shown := LastShown(outcomes, freshIds, i);
          activeId == (if shown.Some? then shown else old(activeId))
          && hasSphere == (old(hasSphere) || shown.Some?)
          && rotationY == (if shown.Some? then 0.0 else old(rotationY))
          && fov == (if shown.Some? then DefaultFov else old(fov))
        decreases |validFiles| - i, if failed then 0 else 1
      {
        var loaded := LoadNextFile(validFiles, outcomes, freshIds, i);
        if loaded {
          UploadStep(validFiles, outcomes, freshIds, i);
          AppendAssoc(old(panoramas), UploadRecords(validFiles, outcomes, freshIds, i),
            [UserRecord(freshIds[i], validFiles[i], outcomes[i])]);
          AppendAssoc(old(notices), UploadNotices(validFiles, outcomes, i), FileNotices(validFiles[i], outcomes[i]));
          i := i + 1;
        } else {
          assert FileNotices(validFiles[i], outcomes[i]) == [LoadingError];
          failed := true;
        }
      }
    }

    /** One turn of the loop of `handleFiles`: load the i-th valid file. */
    method LoadNextFile(validFiles: seq<File>, outcomes: seq<Decode>, freshIds: seq<Id>, i: nat) returns (loaded: bool)
      requires Valid()
      requires SameLength(validFiles, outcomes, freshIds)
      requires i < |validFiles|
      requires FreshIds(panoramas, freshIds[i..])
      modifies this`panoramas, this`activeId, this`fov, this`hasSphere, this`rotationY, this`galleryCount, this`notices
      ensures Valid()
      ensures loaded == outcomes[i].Decoded?
      ensures loaded ==> FreshIds(panoramas, freshIds[i + 1..])
      ensures loaded ==> panoramas == old(panoramas) + [UserRecord(freshIds[i], validFiles[i], outcomes[i])]
      ensures !loaded ==> panoramas == old(panoramas)
      ensures notices == old(notices) + FileNotices(validFiles[i], outcomes[i])
      ensures var shown := loaded && outcomes[i].textureLoaded;
        activeId == (if shown then Some(freshIds[i]) else old(activeId))
        && hasSphere == (old(hasSphere) || shown)
        && rotationY == (if shown then 0.0 else old(rotationY))
        && fov == (if shown then DefaultFov else old(fov))
    {
      assert freshIds[i..][0] == freshIds[i];
      ghost var ps := panoramas;
      loaded := LoadPanoramaFromFile(validFiles[i], outcomes[i], freshIds[i]);
      if loaded {
        FreshIdsStep(ps, UserRecord(freshIds[i], validFiles[i], outcomes[i]), freshIds[i..]);
        assert freshIds[i..][1..] == freshIds[i + 1..];
      }
    }

    /**
     * `loadPanoramaFromFile`: on a successful decode, warn about the aspect
     * ratio if needed, append a 'user' record with the file's name and size,
     * load it and update the counter; on a failed read or decode, report the
     * error and change nothing else.
     */
    method LoadPanoramaFromFile(file: File, outcome: Decode, freshId: Id) returns (loaded: bool)
      requires Valid()
      requires freshId !in Ids(panoramas)
      modifies this`panoramas, this`activeId, this`fov, this`hasSphere, this`rotationY, this`galleryCount, this`notices
      ensures Valid()
      ensures loaded == outcome.Decoded?
      ensures panoramas == old(panoramas) + (if loaded then [UserRecord(freshId, file, outcome)] else [])
      ensures notices == old(notices) + FileNotices(file, outcome)
      ensures var shown := loaded && outcome.textureLoaded;
        activeId == (if shown then Some(freshId) else old(activeId))
        && hasSphere == (old(hasSphere) || shown)
        && rotationY == (if shown then 0.0 else old(rotationY))
        && fov == (if shown then DefaultFov else old(fov))
    {
      if !outcome.Decoded? {
        notices := notices + [LoadingError];
        return false;
      }
      notices := notices + (if AspectWarning(outcome.width, outcome.height) then [AspectRatioWarning] else []);
      var panorama := UserRecord(freshId, file, outcome);
      AppendFresh(panoramas, panorama);
      panoramas := panoramas + [panorama];
      LoadPanorama(panorama, outcome.textureLoaded);
      UpdateGalleryCounter();
      notices := notices + [Uploaded(file.name)];
      loaded := true;
    }

    /**
     * `webglcontextrestored`: reloads `panoramas[0]`, whichever record was
     * on display before the context was lost.
     */
    method ContextRestored(textureLoaded: bool)
      requires Valid()
      modifies this`activeId, this`fov, this`hasSphere, this`rotationY
      ensures Valid()
      ensures |panoramas| > 0 && textureLoaded ==>
        activeId == Some(panoramas[0].id) && fov == DefaultFov && hasSphere && rotationY == 0.0
      ensures !(|panoramas| > 0 && textureLoaded) ==>
        activeId == old(activeId) && fov == old(fov) && hasSphere == old(hasSphere) && rotationY == old(rotationY)
    {
      if |panoramas| > 0 {
        assert Ids(panoramas)[0] == panoramas[0].id;
        LoadPanorama(panoramas[0], textureLoaded);
      }
    }

    /**
     * `deletePanorama` as written: splice the record out, remove its gallery
     * element and, with it, the active mark it may carry. The reload test
     * then reads the mark back (Gallery.ActiveAfterRemovalAsWritten), which
     * is never the deleted id, so nothing is reloaded and the display is
     * left alone. The record type is not checked.
     */
    method DeletePanorama(id: Id)
      requires Valid()
      modifies this`panoramas, this`activeId, this`galleryCount, this`notices
      ensures Valid()
      ensures panoramas == Removed(old(panoramas), id)
      ensures id !in Ids(old(panoramas)) ==>
        notices == old(notices) && galleryCount == old(galleryCount) && activeId == old(activeId)
      ensures id in Ids(old(panoramas)) ==>
        notices == old(notices) + [Deleted] && activeId == ActiveAfterRemovalAsWritten(old(activeId), id)
    {
      ghost var before := panoramas;
      ghost var rest := Removed(before, id);
      FindIndexAbsent(before, id);
      RemovedShape(before, id);
      var index := FindIndex(panoramas, id);
      if index > -1 {
        panoramas := panoramas[..index] + panoramas[index + 1..];
        assert panoramas == rest;
        activeId := ActiveAfterRemovalAsWritten(activeId, id);
        // `getCurrentPanoramaId() === id` is false here, so the reload branch is skipped
        UpdateGalleryCounter();
        notices := notices + [Deleted];
      }
    }

    /**
     * `deletePanorama` with the active-entry test taken before the deleted
     * entry's gallery element is removed: deleting the displayed record
     * reloads `panoramas[0]`, which becomes the marked entry once its texture
     * arrives (Gallery.ActiveAfterDelete).
     */
    method DeletePanoramaCorrected(id: Id, textureLoaded: bool)
      requires Valid()
      modifies this`panoramas, this`activeId, this`fov, this`hasSphere, this`rotationY, this`galleryCount, this`notices
      ensures Valid()
      ensures panoramas == Removed(old(panoramas), id)
      ensures id !in Ids(old(panoramas)) ==>
        notices == old(notices) && galleryCount == old(galleryCount) && activeId == old(activeId)
      ensures id in Ids(old(panoramas)) ==>
        notices == old(notices) + [Deleted] && activeId == ActiveAfterDelete(panoramas, old(activeId), id, textureLoaded)
      ensures var reload := id in Ids(old(panoramas)) && old(activeId) == Some(id) && |panoramas| > 0 && textureLoaded;
        fov == (if reload then DefaultFov else old(fov))
        && hasSphere == old(hasSphere)
        && rotationY == (if reload then 0.0 else old(rotationY))
    {
      ghost var before := panoramas;
      ghost var rest := Removed(before, id);
      FindIndexAbsent(before, id);
      RemovedShape(before, id);
      var index := FindIndex(panoramas, id);
      if index > -1 {
        var wasActive := activeId == Some(id);
        panoramas := panoramas[..index] + panoramas[index + 1..];
        assert panoramas == rest;
        if wasActive {
          activeId := None;
          if hasSphere && |panoramas| > 0 {
            assert Ids(panoramas)[0] == panoramas[0].id;
            LoadPanorama(panoramas[0], textureLoaded);
          }
        }
        UpdateGalleryCounter();
        notices := notices + [Deleted];
      }
    }

    /**
     * The delete button, which exists only on entries whose type is not
     * 'default': exactly that record goes, every other record (presets
     * included) stays in order, and the display is not touched.
     */
    method DeleteButtonClicked(p: Panorama)
      requires Valid() && p in panoramas && p.kind != Default
      modifies this`panoramas, this`activeId, this`galleryCount, this`notices
      ensures Valid()
      ensures panoramas == Removed(old(panoramas), p.id)
      ensures |panoramas| == |old(panoramas)| - 1 && p !in panoramas
      ensures forall q :: q in old(panoramas) && q.kind == Default ==> q in panoramas
      ensures notices == old(notices) + [Deleted]
      ensures activeId == ActiveAfterRemovalAsWritten(old(activeId), p.id)
    {
      ghost var before := panoramas;
      ghost var k :| 0 <= k < |before| && before[k] == p;
      assert Ids(before)[k] == p.id;
      assert forall i :: 0 <= i < |before| && before[i].id == p.id ==> i == k;
      PresetsSurviveUserDelete(before, p.id);
      RemovedShape(before, p.id);
      DeletePanorama(p.id);
      assert p.id !in Ids(panoramas);
      forall i | 0 <= i < |panoramas|
        ensures panoramas[i] != p
      {
        assert Ids(panoramas)[i] == panoramas[i].id;
      }
    }
  }
}
