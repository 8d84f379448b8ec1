# Portfolio site behaviour, modelled in Dafny

This project models the parts of a personal portfolio web site that hold
logic. The rest of the site is markup, styling and rendering.

From `liquid-gradient.js`, the animated hero background:

- **`TouchTexture`** is the pointer-trail buffer.
  - `addTouch` deposits a trail point for each pointer move. The point carries the move's unit direction and a capped force.
  - `update` runs once per frame. It drifts every point along its direction by a factor that fades with age, ages it by one frame, removes it once it is older than 64 frames, and draws the rest.
  - `drawPoint` stamps an intensity envelope that rises and then falls over the point's life.
- **`GradientBackground`** keeps the time uniform, which advances by each frame's delta, and the resolution uniform.
- **`App`** filters pointer events. Positions inside the container are normalised to the unit square with the y axis pointing up; positions outside are dropped. Each frame, `App.update` steps the trail buffer and then the time uniform.

From `script.js`:

- **The contact form's submit handler.** It trims the four fields. A blank field gives an error, an address that fails `^[^\s@]+@[^\s@]+\.[^\s@]+$` gives a second error, and anything else gives the thank-you message and resets the form.
- **Active-page highlighting.** The current page is the last `/`-separated piece of the pathname, or `index.html` when that piece is empty. Exactly the navigation links whose `href` names the current page get the class `active`.
- **The typing effect.** It clears the element, then each timer callback appends one character of the text.

Files:

- `trail_buffer.dfy` holds the value-level specification of the trail buffer.
- `liquid_gradient.dfy` holds the classes whose methods are proved against that specification.
- `real_arith.dfy` holds nonlinear facts about reals, with squares kept behind `Sq`.
- `contact_form.dfy`, `active_page.dfy` and `type_writer.dfy` model the three parts of `script.js`.

JavaScript numbers are modelled as mathematical reals.

Two library calls are inputs to the model:

- `Math.sqrt(dd)` becomes a caller-supplied length `d`. It is required to satisfy `d >= 0 && d*d == dd` wherever a direction is computed. From that alone the model proves the direction is a unit vector.
- The `Math.sin` rise of the intensity envelope becomes a caller-supplied value `easeIn`.

Two consequences of the code that are easy to miss:

- The first touch, when no last position exists yet, appends a point with force 0 and direction (0, 0) (`liquid-gradient.js:47-63`). `ZeroForceNeverMoves` shows that this point never drifts.
- `addTouch` puts no limit on the number of trail points, because any number of pointer moves can arrive between two frames. What is proved is that every point is gone within 65 frames (`PointLifetime`, `TrailEmptiesAfterMaxAgePlusOne`).

## Model

| member | source | states |
|---|---|---|
| TrailBuffer.Force | liquid-gradient.js:56-60 | The force of a move is its squared length times 20000, capped at 2: it lies in [0, 2], is positive for any real move, and equals the cap exactly when `dd * 20000 >= 2` |
| TrailBuffer.ForceMonotone | liquid-gradient.js:60 | A longer move never deposits less force |
| TrailBuffer.UnitDirection | liquid-gradient.js:53-59 | Dividing a non-zero move by its length gives a positive divisor and a vector of length exactly 1 pointing the same way |
| TrailBuffer.Deposit | liquid-gradient.js:53-63 | The point deposited by a move sits at the new position with age 0, force in (0, 2] and a unit direction that scaled by the length is the move |
| TrailBuffer.Touch | liquid-gradient.js:47-64 | The first touch appends a force-0, direction-0 point; a touch at the last position changes nothing; any other touch appends exactly one point with the move's force and unit direction, keeps all earlier points, and makes the touch the last position |
| TrailBuffer.TouchRepeatIsNoOp | liquid-gradient.js:55 | Touching the same position twice in a row adds nothing the second time |
| TrailBuffer.StepFactor | liquid-gradient.js:29 | The drift factor `force * speed * (1 - age / maxAge)` is 0 for a force-0 point and for a point of age 64, and is never negative for a point of non-negative force within its lifetime |
| TrailBuffer.Aged | liquid-gradient.js:29-32 | Ageing a point raises its age by one, keeps its force and direction, and moves it along its direction: the displacement is parallel to (vx, vy), and forward in x when vx is non-negative |
| TrailBuffer.StepFactorBounds | liquid-gradient.js:26-29 | The per-frame drift factor of a live point lies in [0, force/64], is 0 at age 64 and shrinks as the point ages |
| TrailBuffer.ZeroForceNeverMoves | liquid-gradient.js:29-31 | A point of force 0 (a first touch) does not move when it ages |
| TrailBuffer.Advance | liquid-gradient.js:27-38 | A frame never grows the trail, leaves only points of age at most 64, and every survivor of a non-negative-age trail has age at least 1 |
| TrailBuffer.AdvanceRemovesExactlyExpired | liquid-gradient.js:27-38 | A frame removes exactly the points whose new age exceeds 64 and keeps the aged copies of all others, in their original order |
| TrailBuffer.AdvanceRaisesAges | liquid-gradient.js:32 | If every age is at least m, every survivor's age is at least m + 1 |
| TrailBuffer.AdvanceNAges | liquid-gradient.js:32 | After n frames every surviving point is at least n frames older |
| TrailBuffer.AdvanceNShift | liquid-gradient.js:24-40 | n+1 frames are n frames followed by one more |
| TrailBuffer.TrailEmptiesAfterMaxAgePlusOne | liquid-gradient.js:27-38 | With no further input, any trail is empty after 65 frames |
| TrailBuffer.PointLifetime | liquid-gradient.js:32-34 | A point of age a survives exactly 64 - a more frames, ageing by one each frame, and is gone on the next |
| TrailBuffer.AdvanceKeepsOldestFirst | liquid-gradient.js:27-38 | A frame keeps the trail ordered oldest first |
| TrailBuffer.TouchKeepsValid | liquid-gradient.js:47-64 | A touch preserves the buffer invariant: ages in [0, 64], force 0 with a zero direction or force in (0, 2] with a unit direction, oldest first, and no point before the first touch |
| TrailBuffer.AdvanceKeepsValid | liquid-gradient.js:24-40 | A frame preserves the same buffer invariant |
| TrailBuffer.EaseOut | liquid-gradient.js:76-77 | The falling branch of the envelope never exceeds 1 and is 0 at age 64 |
| TrailBuffer.Intensity | liquid-gradient.js:72-79 | The stamp intensity is the envelope times the force: 0 for a force-0 point and at age 64, and the rising value times the force before age 0.3 * 64 |
| TrailBuffer.FallingBranch | liquid-gradient.js:76-77 | `-t * (t - 2)` with `t = 1 - u` equals `1 - u^2` |
| TrailBuffer.EaseOutAsSquare | liquid-gradient.js:76-77 | The falling branch `-t*(t-2)` equals one minus the square of the fraction of the fade already done |
| TrailBuffer.EaseOutShape | liquid-gradient.js:72-78 | After the rise, the envelope lies in [0, 1], is 0 at age 64 and never increases as the point ages |
| TrailBuffer.IntensityWithinForce | liquid-gradient.js:72-79 | A well-formed point stamps an intensity between 0 and its force (so at most 2), and stamps nothing at age 64 |
| TrailBuffer.Reversed | liquid-gradient.js:27 | The backward walk visits the points newest first: element k of the reversal is element n-1-k of the trail |
| LiquidGradient.TouchTexture.constructor | liquid-gradient.js:3-12 | A new buffer has no trail points and no last position |
| LiquidGradient.TouchTexture.AddTouch | liquid-gradient.js:47-64 | The in-place `addTouch` leaves the buffer in exactly the state `Touch` specifies and keeps the buffer invariant |
| LiquidGradient.TouchTexture.Update | liquid-gradient.js:24-40 | The in-place backward loop with splicing leaves exactly `Advance` of the old trail, draws the survivors newest first, leaves the last position alone and keeps the buffer invariant |
| LiquidGradient.UpdateStep | liquid-gradient.js:28-37 | One iteration at index i either splices the point out or replaces it with its aged copy, extending the processed suffix by one |
| LiquidGradient.GradientBackground.constructor | liquid-gradient.js:100-111 | The time uniform starts at 0 with the given resolution |
| LiquidGradient.GradientBackground.Update | liquid-gradient.js:253-257 | The time uniform advances by exactly delta, and never goes back for a non-negative delta; the resolution is unchanged |
| LiquidGradient.GradientBackground.OnResize | liquid-gradient.js:259-273 | A resize sets the resolution and leaves the time unchanged |
| LiquidGradient.Normalise | liquid-gradient.js:342-353 | A pointer is forwarded exactly when it lies inside the container, borders included; the result is in the unit square, x scaled from the left edge and y flipped from the top edge |
| LiquidGradient.App.constructor | liquid-gradient.js:320-321 | The app starts with a fresh, empty trail buffer, time 0 and no pointer position |
| LiquidGradient.App.OnMouseMove | liquid-gradient.js:342-356 | A pointer outside changes nothing; one inside becomes the normalised mouse position and is added to the trail exactly as `Touch` specifies |
| LiquidGradient.App.Update | liquid-gradient.js:366-369 | One frame advances the trail as `Advance` and the time uniform by delta, keeps the resolution and the trail buffer's invariant |
| ContactForm.SpaceChars | script.js:117-129 | Of the characters `IsSpace` lists (exactly those `trim` strips and `\s` matches), none is '@', '.' or '/', and all lie in the Basic Multilingual Plane |
| ContactForm.TrimStart | script.js:117-120 | Leading trim removes a blank prefix and leaves a suffix that is empty or starts with a non-space |
| ContactForm.TrimEnd | script.js:117-120 | Trailing trim removes a blank suffix and leaves a prefix that is empty or ends with a non-space |
| ContactForm.Trim | script.js:117-120 | A trimmed field is the input with a blank prefix and a blank suffix removed, and is empty or starts and ends with a non-space |
| ContactForm.TrimEmptyIffBlank | script.js:117-123 | A field is empty after trimming exactly when it consists of white space only |
| ContactForm.Next | script.js:129 | One matcher step: white space or a failed state fails for good; an '@' survives only from inside the local part and leads to the start of the domain; the final state is entered only from the state right after a '.' or from itself |
| ContactForm.Scan | script.js:129 | A failed scan stays failed; a scan ending in the final state read no white space, and read a '.' unless it started after one |
| ContactForm.EmailOk | script.js:129-130 | An accepted address contains no white space and contains a '.' |
| ContactForm.ScanCorrect | script.js:129 | From every matcher state, the left-to-right matcher accepts exactly the inputs that state's part of the pattern describes |
| ContactForm.EmailOkIffPattern | script.js:129-130 | The e-mail test accepts exactly the strings of the form: a non-empty local part without white space or '@', one '@', and a domain part without white space or '@' holding a '.' with a character on each side |
| ContactForm.EmailRejects | script.js:129-133 | Addresses containing white space, with no '@', with two '@' or with no '.' after the '@' are rejected |
| ContactForm.EmailAcceptsExample | script.js:129 | "a@b.c" is accepted |
| ContactForm.Submit | script.js:113-140 | A blank field gives the missing-fields error and keeps the fields; otherwise an address failing the pattern gives the invalid-address error and keeps the fields; success happens exactly when no field is blank and the address matches, and then shows the thank-you message and clears the form |
| ActivePage.Split | script.js:159 | Splitting at '/' yields at least one piece, no piece contains '/', and there is a single piece exactly when the text has no '/' |
| ActivePage.Join | script.js:159 | Joining at least one slash-free piece gives a text with a '/' exactly when there are several pieces |
| ActivePage.JoinSplit | script.js:159 | Joining the split pieces with '/' gives the pathname back |
| ActivePage.SplitAfterPiece | script.js:159 | A slash-free piece followed by '/' splits off as the first piece |
| ActivePage.SplitJoin | script.js:159 | Joining slash-free pieces with '/' and splitting again gives the pieces back, so `Split` yields exactly the pieces between slashes |
| ActivePage.LastPieceIsSuffix | script.js:159 | The last piece is the suffix of the pathname after its last '/' |
| ActivePage.CurrentPage | script.js:159 | The current page is never empty and has no '/'; it is "index.html" for an empty pathname or one ending in '/', and otherwise the text after the last '/' |
| ActivePage.Matches | script.js:164 | For a non-empty current page the test is just `href === currentPage`; the empty-page disjunct matters only for an empty page |
| ActivePage.Marked | script.js:164-168 | A marked link keeps its href and its other classes, and carries "active" exactly when it matches |
| ActivePage.MarkedActiveIffCurrent | script.js:162-168 | A marked link is active exactly when its href is the current page; its href and its other classes are unchanged |
| ActivePage.MarkLinks | script.js:162-169 | The loop marks every link in place, each one active exactly when it matches the current page |
| ActivePage.HighlightCurrentPage | script.js:158-170 | After the handler, exactly the links whose href is the current page carry "active"; no href and no other class changes |
| TypeWriter.Typing.constructor | script.js:173-175 | Typing starts at index 0 with the element's text cleared |
| TypeWriter.Typing.Type | script.js:177-183 | Each callback appends the next character and reschedules itself exactly when characters remain; after n callbacks the element shows the first min(n, length) characters |
| TypeWriter.Typing.Run | script.js:173-186 | The chain of callbacks ends with the element showing the whole text |

## Left out

- Rendering is outside the model: the three.js scene, renderer and camera, the shader sources, the canvas operations of `clear` and `drawPoint` (colour strings, arc and shadow), `initTexture`, `getViewSize`, the `tick` / `requestAnimationFrame` loop and the clock. `TouchTexture.Update` returns the list of points drawn, in drawing order, in place of drawing them.
- `onTouchMove` only forwards the first touch's coordinates to `onMouseMove` and is not modelled separately.
- Floating point: numbers are reals, with no rounding, NaN or infinities. `Math.sqrt` is the caller-supplied length `d`.
- LiquidGradient.Normalise: requires a container of positive width and height. A zero-size container makes the code divide zero by zero and yields NaN, which reals cannot represent. The same precondition is on LiquidGradient.App.OnMouseMove.
- TrailBuffer.Intensity: the `Math.sin` rise used before age 0.3·64 is the parameter `easeIn`. Only the polynomial falling branch is computed, and the rise is only assumed to lie in [0, 1] where a bound is proved.
- LiquidGradient.GradientBackground.Update: the guard `if (this.uniforms.uTime)` always holds, because the uniform is an object. The model updates unconditionally.
- LiquidGradient.GradientBackground.OnResize: the mesh geometry rebuilt from the view size is not modelled. Only the resolution uniform is.
- ContactForm.Submit: `contactForm.reset()` is modelled as restoring every field to an empty default. `showFormMessage`'s display, its CSS class and its five-second timeout are reduced to the message text and kind.
- ActivePage.HighlightCurrentPage: the navigation links are an array of link values (href and class set). DOM aliasing and the `.nav-menu a` query are not modelled.
- TypeWriter.Typing: the `speed` delay and the timer itself are not modelled. Each callback is one call of `Type`, and `Run` is the whole chain.
- TypeWriter.Typing: a text is a sequence of Unicode scalar values, not of UTF-16 code units. `text.length` and `charAt(i)` count code units, so a character outside the Basic Multilingual Plane (an emoji, say) takes two callbacks in the code and shows a lone surrogate in between; `Type` shows it in one step. Trimming, `\s`, `[^\s@]` and `split('/')` are unaffected, because no white space, '@', '.' or '/' lies outside that plane (`SpaceChars`).
- The other handlers of `script.js` are not part of this model: navigation toggle, smooth scrolling, header scroll effect, intersection observers and card hover effects. They only change presentation.
