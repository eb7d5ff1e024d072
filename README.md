# Face session engine: a Dafny model

This project models the identity-session core of a FastAPI robot-kiosk server that watches a
camera and recognizes faces. It has four parts:

- **The face session state machine** (`FaceSession`, from `app/services/session_manager.py`).
  - Detection is debounced: an identity search is requested once per continuous appearance of a face.
  - A face unseen for `face_timeout` seconds logs the user out and resets the session.
  - The state records the recognition outcome and a pending registration request.
  - `SessionManager` is a class whose fields are updated in place. Each of its methods is proved to perform a step function on the value `Session`.
  - The lemmas about sequences of operations are stated on the step functions: the at-most-once search, the timeout law and the session invariant.
- **The face routes that touch the session** (`FaceRouter`, from `app/routers/face.py`).
  - Registration of the face in view: the user id is trimmed, then checked (not empty, then at least two characters), then a current bounding box is required. The first failing check gives the 400 response.
  - The session reset route.
  - The identity-store clear route, which resets the session only when the store reports success.
- **The detection service's clipping loop** (`FaceDetection`, from `app/services/face_detection_service.py`). Each detection, already in integer pixels, is clamped into the frame and collected in order.
- **The recognition service's crop guards** (`FaceRecognition`, from `app/services/face_recognition_service.py`).
  - A degenerate box gives nothing. So does an empty crop.
  - Otherwise the result is `frame[y1:y2, x1:x2]`, following Python's slicing rules.
  - `extract_face_embedding` applies the same guards before the embedding model runs. The model is a function parameter.

The clock (`time.time()`) is a parameter `now: real` in seconds. The store's `clear_database()`
result and the embedding model are parameters too.

Three behaviours of the code are worth stating because they are easy to assume otherwise:

- `set_recognized_user` and `set_unknown_user` do not check for a face, so "no face implies no user id, not recognized, not searched" is not kept. `FaceSession.RecognitionWithoutFace` exhibits a counterexample. The invariant the code does keep is `FaceSession.Consistent`: a box is stored exactly while a face is present, and a user id exactly while the face is recognized.
- The "no face detected" check of a registration request lives in the route (`app/routers/face.py:56-59`), so `FaceRouter.ValidateRegistration` holds it. `set_pending_registration` accepts any box.
- The identity store's `add_face` writes `created_at` afresh in both of its branches, so an update does not keep the original creation time. The store is not part of this model.

## Model

| member | source | states |
|---|---|---|
| FaceSession.SessionManager.constructor | app/services/session_manager.py:6-27 | a new manager holds the `FaceState` defaults and no pending registration, with the given timeout |
| FaceSession.FaceDetected | app/services/session_manager.py:41-57 | true exactly when no face was present; afterwards a face is present with the given box and `last_seen == now`; the search flag is cleared on the absent-to-present edge and otherwise kept, as are the user id, recognition and pending registration |
| FaceSession.SessionManager.UpdateFaceDetected | app/services/session_manager.py:31-57 | updates the fields in place exactly as `FaceDetected` says and keeps the session invariant |
| FaceSession.NoFaceDetected | app/services/session_manager.py:66-77 | logs out exactly when a face is present and `now - last_seen >= timeout`; a logout leaves the fresh session, otherwise nothing changes |
| FaceSession.SessionManager.UpdateNoFaceDetected | app/services/session_manager.py:59-77 | performs `NoFaceDetected` with the manager's timeout, resetting through `ResetFaceState` |
| FaceSession.LogoutFiresOnce | app/services/session_manager.py:66-77 | for a face last seen at t0 followed only by absences, exactly the first call at or past t0 + timeout returns true, every other call false; the session is fresh after it and untouched if no call reaches the timeout |
| FaceSession.AbsentWithoutFaceIsQuiet | app/services/session_manager.py:69-77 | with no face present, absences never log out and change nothing, so a second call after a logout returns false |
| FaceSession.FirstExpiry | app/services/session_manager.py:72 | the index of the first absence reaching the timeout: no earlier call reaches it, and the one at the index does |
| FaceSession.RecognizedUser | app/services/session_manager.py:86-90 | records the user id as recognized and the search as done; presence, box, timestamp and pending registration untouched |
| FaceSession.SessionManager.SetRecognizedUser | app/services/session_manager.py:79-90 | updates the fields in place as `RecognizedUser` says |
| FaceSession.UnknownUser | app/services/session_manager.py:96-100 | clears the user id and recognition and marks the search as done; presence, box, timestamp and pending registration untouched |
| FaceSession.SessionManager.SetUnknownUser | app/services/session_manager.py:92-100 | updates the fields in place as `UnknownUser` says |
| FaceSession.SessionManager.ShouldPerformSearch | app/services/session_manager.py:102-111 | a search is due exactly when a face is present and no outcome is recorded for it |
| FaceSession.SessionManager.GetFaceBbox | app/services/session_manager.py:130-138 | returns the stored box, which in a valid session exists exactly while a face is present |
| FaceSession.SessionManager.GetCurrentUserId | app/services/session_manager.py:140-148 | the user id when recognized, otherwise none |
| FaceSession.SessionManager.ResetFaceState | app/services/session_manager.py:150-157 | the session becomes the fresh one: `FaceState` defaults and no pending registration |
| FaceSession.PendingSet | app/services/session_manager.py:159-173 | the pending registration becomes the given id, box and time; the face state is untouched |
| FaceSession.SessionManager.SetPendingRegistration | app/services/session_manager.py:159-173 | updates the field in place as `PendingSet` says |
| FaceSession.PendingLastWins | app/services/session_manager.py:167-172 | of two registration requests the later one is what remains |
| FaceSession.SessionManager.GetPendingRegistration | app/services/session_manager.py:175-183 | returns the pending registration, none when there is none |
| FaceSession.PendingCleared | app/services/session_manager.py:185-190 | no pending registration afterwards; the face state is untouched |
| FaceSession.SessionManager.ClearPendingRegistration | app/services/session_manager.py:185-190 | updates the field in place as `PendingCleared` says |
| FaceSession.RunKeepsConsistent | app/services/session_manager.py:41-190 | every sequence of operations keeps "box stored iff face present" and "user id stored iff recognized" |
| FaceSession.SearchesBoundedByAppearances | app/services/session_manager.py:44-57 | over any sequence of operations, searches requested are at most the appearances: one if no face was present at the start, plus one per timeout logout and per reset |
| FaceSession.AppearanceSearchesOnce | app/services/session_manager.py:41-100 | during one continuous appearance (no logout, no reset) no further search is requested, the face stays present, and a recorded search outcome stays recorded |
| FaceSession.RecognitionWithoutFace | app/services/session_manager.py:86-89 | recognition can be recorded with no face present, so "no face implies no user" is not an invariant of the code |
| FaceSession.ResetFaceStateAsWritten | app/services/session_manager.py:150-157 | with the non-reentrant lock already held by the caller the reset never returns; otherwise it yields the fresh session |
| FaceSession.UpdateNoFaceDetectedAsWritten | app/services/session_manager.py:66-75 | as written, the call hangs exactly when it should log out and otherwise agrees with `NoFaceDetected` |
| FaceSession.TimeoutLogoutDeadlocksAsWritten | app/services/session_manager.py:66-75 | a face seen at 0 and absent at 5 with timeout 5: the intended result is a logout, the code as written deadlocks |
| FaceRouter.StripChars | app/routers/face.py:47 | `str.strip(chars)`: a contiguous part of the input with only characters of `chars` removed at either end, starting and ending outside `chars`, empty exactly when the input consists of `chars` only |
| FaceRouter.Strip | app/routers/face.py:47 | `str.strip()`: a contiguous part of the id after its leading whitespace, with only whitespace after it, starting and ending outside Python's whitespace characters; empty exactly for an all-whitespace id |
| FaceRouter.StripIdempotent | app/routers/face.py:47 | trimming a trimmed id changes nothing |
| FaceRouter.StripKeepsTrimmed | app/routers/face.py:47 | an id without surrounding whitespace is kept as it is |
| FaceRouter.ValidateRegistration | app/routers/face.py:47-59 | every refusal is a 400; empty trimmed id, then length below 2, then no current box, in that order, the first failure deciding; success exactly otherwise, carrying the trimmed id and the current box |
| FaceRouter.NoBoxMeansNoFace | app/routers/face.py:56-59 | in a consistent session a valid id is refused for want of a box exactly when no face is present |
| FaceRouter.RegisterCurrentFace | app/routers/face.py:43-69 | refusals leave the session unchanged; success echoes the trimmed id and sets the pending registration to it with the current box |
| FaceRouter.ResetCurrentSession | app/routers/face.py:131-140 | the session is fresh afterwards |
| FaceRouter.ClearFaceDatabase | app/routers/face.py:145-160 | the session is reset only when the store clear succeeded; otherwise a 500 and the session unchanged |
| FaceDetection.Clip | app/services/face_detection_service.py:53-57 | the clipped box has `x1, y1 >= 0`, `x2 <= w`, `y2 <= h`; each coordinate moves only to the bound it crossed; a box already within the frame is unchanged, and only such a box |
| FaceDetection.ClipIdempotent | app/services/face_detection_service.py:53-57 | clipping a clipped box changes nothing |
| FaceDetection.DetectFaces | app/services/face_detection_service.py:41-61 | one box per detection, in order, each the clipped detection and within the frame; no detection gives no box |
| FaceDetection.GetFaceCount | app/services/face_detection_service.py:109-120 | the count is the length of the box list, one per detection |
| FaceRecognition.SliceBound | app/services/face_recognition_service.py:143 | Python's slice-bound normalisation: a negative bound counts from the end, every bound is clamped to the length |
| FaceRecognition.Slice | app/services/face_recognition_service.py:143 | a Python slice is a contiguous part starting at the normalised start, of the length the normalised bounds give, and the ordinary subsequence for in-range bounds |
| FaceRecognition.Crop | app/services/face_recognition_service.py:143 | `frame[y1:y2, x1:x2]` is the row slice with each row cut to the column slice |
| FaceRecognition.Size | app/services/face_recognition_service.py:145 | numpy's `.size` of a grid is at least the length of each of its rows |
| FaceRecognition.SizeOfRectangular | app/services/face_recognition_service.py:145 | for a rectangular grid, `.size` is rows times width |
| FaceRecognition.SizeZeroIffRowsEmpty | app/services/face_recognition_service.py:145-146 | a crop has size 0 exactly when each of its rows is empty |
| FaceRecognition.ExtractFaceFromFrame | app/services/face_recognition_service.py:124-148 | nothing for a degenerate box, nothing for an empty crop, otherwise the crop, which then has pixels |
| FaceRecognition.ExtractFaceEmbedding | app/services/face_recognition_service.py:35-77 | the same degenerate-box and empty-crop guards give nothing before the model is consulted; otherwise the model's answer on the crop |
| FaceRecognition.CropOfBoxInFrame | app/services/face_recognition_service.py:139-148 | a box with area inside a rectangular frame yields exactly the sub-grid of rows `y1..y2` and columns `x1..x2` |
| FaceRecognition.DetectedBoxCrop | app/services/face_recognition_service.py:139-148 | a clipped detection yields a face exactly when it has area, and then it is the frame's sub-grid under the box; the empty-crop guard is never what refuses it |
| FaceRecognition.NegativeBoundCountsFromEnd | app/services/face_recognition_service.py:139-143 | on a rectangular frame of width W, a box with `-W <= x1 < 0`, `x2 >= W` and rows inside the frame passes the guards, and each cropped row is the last `-x1` pixels of the frame's row |

## Left out

- The session lock and concurrency. The methods are modelled as sequential calls; the one place the lock matters is the finding below.
- The diagnostic `print` calls of the session methods (`app/services/session_manager.py:29, 51, 74, 90, 100, 157, 173`): console output with no effect on the state.
- The default `face_timeout=5.0` of the constructor (`app/services/session_manager.py:17`): `SessionManager.constructor` takes the timeout as an argument, and any value gives the same laws.
- The wall clock. `time.time()` is the parameter `now`, and timestamps and the timeout are exact reals rather than floats.
- `FaceState` is kept as a value in a field of `SessionManager`. No other object holds a reference to it in the code, so updating its fields in place and replacing it are indistinguishable.
- `get_current_face_info` and `get_session_stats`: diagnostic dictionaries whose only computation is an elapsed wall-clock time.
- The identity store (`app/services/face_database_service.py`): persistence and nearest-neighbour search live in ChromaDB. `clear_face_database` receives the store's `clear_database()` result as a boolean.
- The other face routes (`get_face_system_status`, `delete_user_face`, `get_all_users`, `get_current_session`, `test_similarity_with_current_face`): each only forwards to the store or to the getters above.
- The 500 responses for unexpected exceptions in the routes: nothing in the modelled paths raises.
- `compare_embeddings`, `is_same_person` and `get_embedding_info`: floating-point cosine similarity and constant metadata.
- The MTCNN alignment and the ResNet embedding: one function parameter of `ExtractFaceEmbedding` stands for both.
- In `detect_faces`, MediaPipe and the conversion of relative float boxes to pixels (`app/services/face_detection_service.py:48-51`). The model starts from integer coordinates.
- `draw_face_boxes`, `process_frame` and `close`: OpenCV rendering and resource release.
- Pixels are opaque values. The colour channels of a frame do not change whether a crop is empty.
- The camera pipeline, the order-marker dispatch over UDP, the language model, chat history, audio and the browser UI are outside this core.

## Findings

| source | as written | input that shows it | evidently intended | confidence | as-written member | corrected member |
|---|---|---|---|---|---|---|
| app/services/session_manager.py:66-75 | `update_no_face_detected` holds the non-reentrant `threading.Lock` and calls `reset_face_state`, which acquires the same lock again (line 154), so the call blocks forever | a face detected at t = 0, then `update_no_face_detected` at t = 5 with `face_timeout` 5 | reset the session and return true, as the docstring and lines 73-75 say | high; not executed | FaceSession.UpdateNoFaceDetectedAsWritten | FaceSession.SessionManager.UpdateNoFaceDetected |
