# Constellation background, theme switch and rainbow mode

This project models the three scripts behind a personal home page.

- `constellation.js` draws a constellation background. A pool of drifting particles respawns on a ring just outside the window. A click drops a new particle and starts an `EdgeGraph`: comets travel from the clicked particle to every active neighbour in range. When a comet arrives, its target is visited in turn. Every particle's `deg` counts the comets that touch it, and a particle with comets is never despawned.
- `theme.js` listens to typed keys. A rolling buffer of the last seven characters switches to the light theme on "light" and to the dark theme on "dark". On "awesome" it toggles a rainbow mode. The rainbow mode cycles the page colours through the hues and then restores the colours it captured.
- `awesome.js` is a second, simpler rainbow mode. When it stops, it clears the inline colours and sets the constellation palette to the constants it declares (`originalColors`). Those constants are not the palette the constellation starts with (see Findings). The class models the script as written, and `Awesome.Reset` is the corrected definition.

The model is organised in six modules:

- `Particles` (`particles.dfy`): a particle as a value, and the pure steps of `spawnAt`, `respawn` and `update`.
- `Propagation` (`propagation.dfy`): an `EdgeGraph` traversal as functions on values, namely `visit`, the edge pass of `update`, and `update` itself. The lemmas about these functions cover idempotence, exactly which edges a visit adds, the degree bookkeeping, and which particles an edge may touch.
- `Constellation` (`constellation.dfy`): the classes `EdgeGraph` and `Scene`, with the engine state of the script's closure. Their methods follow the source's loops. Each method's `ensures` says that its new state equals a function of the old state: `Propagation.Visit`, `Propagation.Progress`, `Particles.Drift` and `Particles.DriftAll`, or the value-level graph loop `SweepFrom` with the splice order `Survivors`. `Scene.Ticked` joins the particle pass and the graph loop of one frame. `Scene.Valid` is the engine invariant:
  - `activeCount` counts the active particles;
  - each particle's degree equals the number of live edge ends on it;
  - every edge end is an active particle;
  - every pulse lies in [0, 1].
- `Page` (`page.dfy`): what the two page scripts share. That is the page colours, the key buffer, `includes`, `isDarkMode` and the repaint of `updateColors`.
- `Theme` (`theme.dfy`, for `theme.js`) and `Awesome` (`awesome.dfy`, for `awesome.js`): each module holds a class with the script's module-level state. Its methods follow the handlers.

Modelling choices:

- Distances are compared through their squares, so `dist <= range` becomes `range >= 0 && d² <= range²`. `diag` is an input whose square is `width² + height²`.
- Each `Math.random()` draw is an input (`Roll`).
- Colours are symbolic. A repainted colour is the triple `(hue, 70, lightness)` handed to `hslToRgb`, left unevaluated.
- The `requestAnimationFrame` id returned by the host is an input (`ticket`), and 0 stands for `null`.

## Model

| member | source | states |
|---|---|---|
| Particles.Min | src/js/constellation.js:216 | `Math.min` gives a value no greater than either argument and equal to one of them |
| Particles.SpawnAt | src/js/constellation.js:44-55 | the particle becomes active at exactly the click position, with pulse 0, the drawn velocity and its degree untouched |
| Particles.PerimeterPoint | src/js/constellation.js:63 | `2 * (width + height) * Math.random()` lies in [0, perimeter), and is below the perimeter whenever the canvas has a size |
| Particles.Place | src/js/constellation.js:65-80 | the side walk puts the particle on one of the four lines lying `range` outside the viewport, with the coordinate along that side inside its length, and changes nothing but x and y. When the four lines are apart (range > 0, or an empty viewport), the point's distance along the ring (`RingPos`: top, then right, bottom, left) is exactly `pos` |
| Particles.Respawn | src/js/constellation.js:57-86 | a respawned particle is active with pulse 0 and degree 0, has the drawn velocity, and lies on the ring outside the viewport; when the lines are apart, its distance along the ring is `2 * (width + height) * random`, so each side is drawn in proportion to its length |
| Particles.MeasuredSeparated | src/js/constellation.js:8-14 | a viewport measured by resize, with a non-zero width or height, has a positive range, so the four lines of the ring are apart |
| Particles.Offscreen | src/js/constellation.js:110-114 | the off-screen test is the viewport grown by `range` on every side, and a particle on the respawn ring is never off-screen |
| Particles.Advance | src/js/constellation.js:125-129 | the advance keeps activity, degree and velocity, and moves the pulse up towards 1 without passing it when delta >= 0 |
| Particles.Drift | src/js/constellation.js:108-130 | update: activeCount follows the particle's flag; a particle with edges is never despawned and keeps its degree; an active particle without edges is despawned exactly when it is off-screen; a particle left inactive respawns on the ring exactly when the count is then below TARGET_COUNT, so the count never rises above TARGET_COUNT; any other active particle only advances; the pulse stays in [0, 1] and does not fall while the particle lives; an inactive result has not moved |
| Particles.DriftAll | src/js/constellation.js:221 | `particles.forEach(p => p.update(delta))` as a fold: the pool keeps its size and the particles not yet reached are untouched |
| Particles.DriftAllCounts | src/js/constellation.js:221 | if activeCount counted the active particles before the pass, it counts them after it |
| Particles.DriftAllCapped | src/js/constellation.js:221 | the pass never lifts the count above TARGET_COUNT or the count it started from, and every active particle with edges stays active with its degree |
| Particles.DriftAllFills | src/js/constellation.js:120-122 | after the pass either the count has reached TARGET_COUNT or every particle it went through is active: an inactive particle is respawned while the count is below the target |
| Particles.DriftAllRefills | src/js/constellation.js:221 | on a pool of at least TARGET_COUNT particles whose count starts at or below the target, one pass refills the count to exactly TARGET_COUNT |
| Particles.CountActiveUpdate | src/js/constellation.js:108-123 | replacing one particle changes the number of active particles by exactly the change in its flag, which is how activeCount is adjusted |
| Particles.CountActiveSameFlags | src/js/constellation.js:30 | the number of active particles depends only on the active flags |
| Particles.CountActiveAppend | src/js/constellation.js:256 | appending a particle adds one to the count exactly when it is active |
| Propagation.IncidenceAppend | src/js/constellation.js:149-151 | the edge ends a list of edges puts on a particle add up over concatenation |
| Propagation.IncidenceZero | src/js/constellation.js:177-189 | a particle owns no ends of a list exactly when no edge of it touches the particle |
| Propagation.Candidates | src/js/constellation.js:144-152 | the edges visit's loop pushes for the indices below n all go from idx to an unvisited, active particle in range, include one edge for every such index, and are in increasing index order |
| Propagation.Visit | src/js/constellation.js:140-153 | visit on values marks idx, changes only degrees and pulses of the particles, and keeps every edge end a particle index |
| Propagation.VisitVisited | src/js/constellation.js:141 | visiting an index already visited changes nothing |
| Propagation.VisitIdempotent | src/js/constellation.js:140-153 | a second visit of the same index changes nothing |
| Propagation.VisitAdds | src/js/constellation.js:142-152 | a first visit sets exactly idx's flag and restarts its pulse, and leaves every other flag and pulse alone. It keeps the old edges as a prefix, and appends exactly one edge {idx, i, 0} for each other unvisited active particle i in range, in index order and with no self-edge. Each degree rises by exactly the ends the new edges put on that particle |
| Propagation.VisitAppends | src/js/constellation.js:142-152 | the edge half of a first visit: idx is marked, its pulse restarts, the old edges stay a prefix, and the appended edges are exactly {idx, i, 0} for the other unvisited active particles i in range, in index order |
| Propagation.VisitRaises | src/js/constellation.js:142-152 | the particle half of a first visit: no other pulse changes, and each degree rises by the ends the appended edges put on it |
| Propagation.VisitLonely | src/js/constellation.js:144-152 | a visit whose root has no unvisited active neighbour in range adds no edge |
| Propagation.VisitBalanced | src/js/constellation.js:149-151 | every degree a visit raises is owned by an edge it added |
| Propagation.VisitAnchored | src/js/constellation.js:145-149 | visiting an active particle keeps every edge end on an active particle |
| Propagation.VisitAll | src/js/constellation.js:190 | visiting the delivered ends in turn changes only degrees and pulses and keeps the indices valid |
| Propagation.VisitAllBalanced | src/js/constellation.js:190 | the visits after the pass keep the degree bookkeeping |
| Propagation.VisitAllAnchored | src/js/constellation.js:190 | visiting active ends keeps every edge end on an active particle |
| Propagation.Grow | src/js/constellation.js:177-189 | the reverse edge pass puts every edge on exactly one side, kept or delivered, and unlocks one particle per delivered edge |
| Propagation.GrowJudged | src/js/constellation.js:177-189 | every edge the reverse pass keeps has not arrived and every edge it delivers has, and unlocked lists the delivered edges' `to` ends in delivery order |
| Propagation.GrowPermutes | src/js/constellation.js:177-189 | the pass loses no edge and invents none: survivors and delivered edges together are a permutation of the input edges, each advanced by the step |
| Propagation.GrowSplits | src/js/constellation.js:184-186 | the ends the input edges put on a particle are split exactly between the survivors and the delivered edges |
| Propagation.GrowAnchored | src/js/constellation.js:177-189 | survivors and delivered edges keep the ends they had |
| Propagation.Pad | src/js/constellation.js:175 | the padded flags keep the old ones as a prefix and are false up to the particle count |
| Propagation.Progress | src/js/constellation.js:174-191 | update on values keeps the edge ends valid and leaves one flag per particle |
| Propagation.ProgressBalanced | src/js/constellation.js:174-191 | update keeps each particle's degree minus the ends the graph owns: what it takes off was owned by a delivered edge, what it adds is owned by a new edge |
| Propagation.GrowDropAnchored | src/js/constellation.js:177-189 | after the reverse loop the kept edges and the unlocked targets lie on active particles, and the particles differ only in degree |
| Propagation.ProgressAnchored | src/js/constellation.js:174-191 | update only ever connects active particles, and only changes degrees and pulses |
| Constellation.LedgerFree | src/js/constellation.js:109 | under the bookkeeping an inactive particle has degree 0, and a degree is 0 exactly when no live edge touches the particle |
| Constellation.LedgerDrift | src/js/constellation.js:108-130 | a particle update that keeps a particle with edges active with its degree preserves the bookkeeping |
| Constellation.LedgerAppend | src/js/constellation.js:252-258 | appending a particle with no degree preserves the bookkeeping |
| Constellation.LedgerTick | src/js/constellation.js:226 | one graph's update preserves the bookkeeping of all graphs and touches only degrees and pulses |
| Constellation.LedgerDrop | src/js/constellation.js:227 | discarding a graph without edges preserves the bookkeeping |
| Constellation.LedgerRoot | src/js/constellation.js:257 | a new graph rooted at an active particle preserves the bookkeeping |
| Constellation.EdgeGraph.constructor | src/js/constellation.js:134-138 | the new graph is the visit of the root on all-false flags and no edges |
| Constellation.EdgeGraph.Visit | src/js/constellation.js:140-153 | the flags, the edges and the particles afterwards are exactly Propagation.Visit of those before |
| Constellation.EdgeGraph.Connect | src/js/constellation.js:144-152 | the loop pushes exactly the candidate edges and raises each degree by the ends they put on it |
| Constellation.EdgeGraph.Update | src/js/constellation.js:174-191 | the flags, the edges and the particles afterwards are exactly Propagation.Progress with step 0.0006 * diag * delta |
| Constellation.EdgeGraph.Judge | src/js/constellation.js:178-188 | one turn of the reverse loop: after edge i the edges are the untouched prefix before i followed by what Grow keeps of the rest, the degrees are those Grow's delivered edges drop, and the unlocked targets are Grow's |
| Constellation.EdgeGraph.PadVisited | src/js/constellation.js:175 | the flags become the padded flags |
| Constellation.EdgeGraph.VisitEach | src/js/constellation.js:190 | the state afterwards is Propagation.VisitAll of the delivered ends |
| Constellation.EdgeGraph.Deliver | src/js/constellation.js:177-189 | the spliced edge list, the unlocked ends and the lowered degrees are exactly the pass Propagation.Grow describes |
| Constellation.Scene.constructor | src/js/constellation.js:194-201 | start-up leaves TARGET_COUNT particles, all active, no graphs, running, and the engine invariant; particle i is the respawn on the ring from draw i, advanced by `update` with its age, which never despawns it |
| Constellation.Scene.Populate | src/js/constellation.js:197-201 | one turn of the start-up loop appends a respawned particle advanced by its age and adds one to activeCount |
| Constellation.Scene.PopulateAll | src/js/constellation.js:197-201 | the start-up loop: one particle per draw, particle i the respawn from draw i advanced by its age, all counted as active, with the engine invariant kept |
| Constellation.Scene.Resize | src/js/constellation.js:8-14 | the viewport becomes the window size with its diagonal and a range of 15% of it |
| Constellation.Scene.UpdateParticle | src/js/constellation.js:221 | particle j and activeCount become what Drift computes, nothing else changes, and the engine invariant holds |
| Constellation.Scene.Unload | src/js/constellation.js:265-266 | beforeunload stops the frame loop |
| Constellation.Scene.HandleClick | src/js/constellation.js:252-258 | a click appends the spawned particle (past the cap), adds one to activeCount, appends one fresh graph that is the visit of the new particle, and keeps the engine invariant |
| Constellation.Scene.Spawn | src/js/constellation.js:256 | the pool grows by the spawned particle and activeCount by one, keeping the invariant |
| Constellation.Scene.StartGraph | src/js/constellation.js:257 | one fresh graph, the visit of the root, is appended, and the particles become that visit's particles |
| Constellation.Scene.Frame | src/js/constellation.js:207-228 | nothing changes once stopped or for a missing timestamp; the first frame resizes and only records the time; a later frame resizes, records the time, and moves particles and graphs exactly as Ticked says for `delta = Math.min(timestamp - lastTime, 999)`; it keeps the invariant and the population cap, never despawns a particle that had edges, and keeps exactly the graphs that still have edges |
| Constellation.Scene.Elapse | src/js/constellation.js:211-228 | a frame after the first: the viewport is re-read, lastTime becomes the timestamp, and particles and graphs move as Ticked says for the clamped delta |
| Constellation.Scene.Tick | src/js/constellation.js:216-228 | the particle pass and then the graph loop, exactly as Ticked says: particles and count from DriftAll, graph states from SweepFrom on the result, and the graphs left are the Survivors in their order; the invariant, the cap, the despawn exemption and the graph discard hold; a pool of at least TARGET_COUNT particles ends the pass with exactly TARGET_COUNT active |
| Constellation.Scene.Drive | src/js/constellation.js:221 | updating every particle in order gives exactly DriftAll of the old particles and count, keeps the invariant and the cap, and never deactivates a particle that had edges; a pool of at least TARGET_COUNT particles whose count is at most the target is refilled to exactly TARGET_COUNT |
| Constellation.Scene.Sweep | src/js/constellation.js:225-228 | the graph states and particles after the loop are SweepFrom of those before, the graphs left are the Survivors of the old graphs (those with edges, in their old order), and only degrees and pulses changed |
| Constellation.Scene.GraphLoop | src/js/constellation.js:225-228 | the loop from the last graph to the first leaves states and particles as SweepFrom says and the graph list as Survivors says |
| Constellation.SweepFrom | src/js/constellation.js:225-228 | the graph loop on values from index i: every graph keeps its edge ends within the pool, the pool keeps its size, and the graphs before i are untouched |
| Constellation.Survivors | src/js/constellation.js:227 | splicing out every graph left without edges keeps each graph that has edges, and keeps nothing else |
| Constellation.Scene.TickGraph | src/js/constellation.js:226-227 | one turn of the graph loop updates graph i as Progress says and splices it out exactly when it has no edges left, so the graphs from i on are their Survivors |
| Constellation.Scene.AdvanceGraph | src/js/constellation.js:226 | only graph i's state changes, and the states and particles become one more step of SweepFrom |
| Constellation.Scene.UpdateGraph | src/js/constellation.js:226 | a graph's flags, edges and the particles become Propagation.Progress of those before; the engine invariant holds and only degrees and pulses change |
| Constellation.Scene.DropGraph | src/js/constellation.js:227 | graphs.splice(i, 1) on a graph without edges keeps the invariant |
| Page.Lower | src/js/theme.js:60 | toLowerCase keeps the length, turns every ASCII capital into its lower-case letter, and changes nothing else |
| Page.EitherCase | src/js/theme.js:60 | a lower-case letter and its capital both lower to that letter |
| Page.Remember | src/js/theme.js:63-66 | the buffer keeps at most seven characters: all of a short buffer, otherwise its last seven |
| Page.RememberAbsorbs | src/js/theme.js:61-66 | trimming at every key keeps the same buffer as trimming once at the end: the buffer is always the last seven characters typed since it was last cleared |
| Page.TypedNext | src/js/theme.js:59-66 | typing the next character of a text, in either case, keeps the buffer equal to the last seven characters typed of it |
| Page.Includes | src/js/theme.js:69 | the empty word is always included, and a word longer than the buffer never is |
| Page.IncludesAt | src/js/theme.js:69 | `includes` holds exactly when the word occurs at some index |
| Page.EndsWithIncludes | src/js/theme.js:63-69 | a buffer whose last characters spell the word includes it after trimming |
| Page.IncludesWithin | src/js/theme.js:69 | what a suffix of the buffer includes, the buffer includes |
| Page.IsDarkMode | src/js/theme.js:94-105 | an explicit light attribute gives false, dark gives true, anything else gives the system preference |
| Page.Repaint | src/js/theme.js:177-225 | the repaint keeps the buttons and the presence of the palette; the body background and every button background take the hue; each border equals its background; line equals base and edge equals highlight |
| Page.RepaintForgets | src/js/theme.js:177-225 | a repaint leaves nothing of an earlier one behind |
| Page.Settled | src/js/theme.js:228-248 | the look a restore from a capture gives back: background, palette and button colours as captured, and every hover attribute present |
| Theme.Detect | src/js/theme.js:68-84 | a reported word occurs in the buffer, and nothing is reported exactly when none of the three words occurs |
| Theme.WordsExclusive | src/js/theme.js:68-84 | in a seven-character buffer two different words never both occur, so the order of the tests never matters |
| Theme.DetectExact | src/js/theme.js:68-84 | in a buffer of at most seven characters, a word is reported exactly when the buffer includes it |
| Theme.WordHeard | src/js/theme.js:59-84 | whatever the buffer held, typing a word makes the handler hear that word |
| Theme.Keystroke | src/js/theme.js:59-85 | a keypress leaves a buffer that hears nothing. With no word heard, the buffer is the last seven characters of the old buffer plus the lowered key. With a word heard, the buffer is empty and the word occurs in those seven characters |
| Theme.NoEarlyFire | src/js/theme.js:59-85 | typing the letters of a word, the handler hears nothing before the last one |
| Theme.TypingWord | src/js/theme.js:59-85 | typing a word letter by letter, each key in either case, from a quiet buffer: each letter but the last leaves the last seven characters typed, and the last one is heard as that word and clears the buffer |
| Theme.Attribute | src/js/theme.js:11-24 | applyTheme sets `data-theme` exactly for "light" and "dark", to the theme itself |
| Theme.Scheme | src/js/theme.js:11-24 | the colour scheme is the theme for "light" and "dark" and "normal" for anything else |
| Theme.AppliedThemeDecides | src/js/theme.js:11-24 | after applyTheme, isDarkMode answers dark for "dark", light for "light", and the system preference for any other theme, whose colour scheme is "normal" |
| Theme.Restore | src/js/theme.js:228-248 | restoring keeps the page's set of buttons (what it gives back is stated by RestoreUndoesRepaint) |
| Theme.RestoreUndoesRepaint | src/js/theme.js:228-248 | however many frames repainted the page after the capture, restoring gives back the captured look, with a missing hover attribute coming back empty |
| Theme.RestoreIdempotent | src/js/theme.js:228-248 | restoring twice is restoring once |
| Theme.ThemeSwitch.constructor | src/js/theme.js:26-30 | page load applies a non-empty saved preference and otherwise leaves the attribute and colour scheme as the page came |
| Theme.ThemeSwitch.ApplyTheme | src/js/theme.js:11-24 | light and dark set the attribute and colour scheme to themselves; anything else removes the attribute and sets "normal"; the argument is persisted |
| Theme.ThemeSwitch.Keypress | src/js/theme.js:59-85 | the buffer becomes what Keystroke says; with no word heard nothing else changes; light or dark applies that theme and leaves the rainbow alone; awesome makes exactly the change ToggleAwesome makes and leaves the theme alone |
| Theme.ThemeSwitch.Respond | src/js/theme.js:69-84 | the branch for a heard word applies the theme it names, or for "awesome" makes exactly the change ToggleAwesome makes |
| Theme.ThemeSwitch.CaptureOriginalColors | src/js/theme.js:111-140 | only the first capture is kept |
| Theme.ThemeSwitch.RestoreColors | src/js/theme.js:228-248 | nothing changes before a capture; after one the page becomes Restore of it |
| Theme.ThemeSwitch.UpdateColors | src/js/theme.js:177-225 | the page becomes the repaint in the current hue and the scheme isDarkMode decides |
| Theme.ThemeSwitch.Animate | src/js/theme.js:251-259 | a stopped rainbow changes nothing; a running one moves the hue by one mod 360 (so it stays in [0, 360)), repaints, and records the new frame request |
| Theme.ThemeSwitch.ToggleAwesome | src/js/theme.js:262-277 | the flag flips and the theme is untouched; starting captures once, moves the hue by one, repaints and records the frame; stopping clears the pending frame and restores the capture |
| Awesome.ResetAsWrittenRecolours | src/js/awesome.js:128-133 | as written, stopping the rainbow on a page that started with the constellation's own palette does not give that palette back |
| Awesome.ResetAsWritten | src/js/awesome.js:117-134 | restoreColors as written: clears the body and every button, and sets a present palette to the script's own constants |
| Awesome.ResetAsWrittenUndoesRepaint | src/js/awesome.js:117-134 | as written, stopping the rainbow gives the same page whatever frames ran, with a present palette set to the script's constants |
| Awesome.ResetAsWrittenIdempotent | src/js/awesome.js:117-134 | as written, resetting twice is resetting once |
| Awesome.Reset | src/js/awesome.js:117-134 | the corrected restoreColors: clears the body and every button and resets a present palette to the one the constellation starts with |
| Awesome.ResetUndoesRepaint | src/js/awesome.js:117-134 | for the corrected reset, stopping the rainbow gives the same page whatever frames ran, and gives back the constellation's starting palette |
| Awesome.ResetIdempotent | src/js/awesome.js:117-134 | for the corrected reset, resetting twice is resetting once |
| Awesome.Keystroke | src/js/awesome.js:165-179 | a keypress leaves a buffer that does not include "awesome". When the word is not heard, the buffer is the last seven characters of the old buffer plus the lowered key. When it is heard, the buffer is empty |
| Awesome.NoEarlyFire | src/js/awesome.js:165-179 | typing the letters of "awesome", nothing is heard before the last one |
| Awesome.TypingAwesome | src/js/awesome.js:165-179 | typing "awesome" letter by letter, each key in either case: each letter but the last leaves the last seven characters typed, and the last toggles and clears |
| Awesome.RainbowMode.constructor | src/js/awesome.js:3-6 | empty buffer, stopped, hue 0, no frame pending |
| Awesome.RainbowMode.Keypress | src/js/awesome.js:165-179 | the buffer becomes what Keystroke says; when "awesome" is heard the rest changes exactly as ToggleAwesome changes it, and otherwise nothing else changes |
| Awesome.RainbowMode.RestoreColors | src/js/awesome.js:117-134 | the page becomes ResetAsWritten of it, with the palette set to the script's constants |
| Awesome.RainbowMode.UpdateColors | src/js/awesome.js:66-114 | the page becomes the repaint in the current hue and the scheme isDarkMode decides |
| Awesome.RainbowMode.Animate | src/js/awesome.js:137-145 | a stopped rainbow changes nothing; a running one moves the hue by one mod 360, repaints, and records the frame request |
| Awesome.RainbowMode.ToggleAwesome | src/js/awesome.js:148-162 | the flag flips; starting moves the hue by one, repaints and records the frame; stopping clears the pending frame and sets the page to ResetAsWritten of it |

## Left out

- Drawing is not modelled: `Particle.draw`, `EdgeGraph.draw`, the ambient line pass and `clearRect` are canvas output only.
- `hslToRgb` is not evaluated. Colours are kept symbolic as (hue, saturation, lightness), so the model cannot say which RGB triple a frame shows.
- Trigonometry and `Math.hypot` are not computed. Velocities come in as given pairs and `diag` is an input pinned down by its square.
- `Math.random()` draws are inputs. `Fair` only bounds the draws that place a particle.
- `requestAnimationFrame` and `cancelAnimationFrame` are not modelled as scheduling. A frame request is a recorded id (`ticket`, 0 for null), and the next `frame` or `animate` call is up to the caller.
- Event-listener registration and removal are not modelled, and neither are the mouseover and mouseout style writes, the clipboard notification, the copyright year or `console.log`.
- The timestamp of the previous frame is 0 before the first frame. The source uses `undefined` for that.
- `resize` reading `window.innerWidth` becomes parameters. The width, height and diagonal are passed in.
- Constellation.Scene.Frame: requires the frame timestamps not to go backwards (`lastTime <= timestamp`). The pulse bound needs `delta >= 0`, and the browser's animation clock is monotone.
- Constellation.Scene.Valid: does not say that the stored viewport is `Measured`, because the frame re-reads the window size before every use of it.
- Constellation.Scene.HandleClick: unchanged fields are stated by the narrowed `modifies` clause, not by an `ensures`.
- Particles.Place: states the distance along the ring only when the four lines are apart. With range 0 and a non-empty viewport the corners are shared, so a corner point does not say which side it was drawn on. Particles.MeasuredSeparated shows this case needs a zero-sized window.
- Page.Lower: lowercases ASCII capitals only. Other letters are left as typed.
- The two listeners for "awesome", one in each page script, are not modelled together. Each script is modelled on its own.
- The page's initial `data-theme` and colour scheme are constructor inputs, not read from the HTML.
- Theme.ThemeSwitch.RestoreColors: writes the captured buttons back by position. The source writes them back to the captured elements. The model assumes the set of social buttons does not change while the page is shown.
- awesome.js declares a `background` colour `#e6f2ff` in its constants but never reads it, so it is not modelled.
- The page's social link wiring is not modelled: it is a constant table of link targets.

## Findings

| source | as written | input that shows it | evidently intended | confidence | as-written member | corrected member |
|---|---|---|---|---|---|---|
| src/js/awesome.js:128-133 | restoreColors resets the constellation palette to base and line colour (229, 231, 235), the constants at src/js/awesome.js:23-29, but the constellation starts with (183, 185, 188) (src/js/constellation.js:21-26) | load the page, type "awesome" twice: particles and ambient lines come back lighter than they started | restoring gives back the palette the constellation started with, as theme.js does through its capture | medium, not executed | Awesome.ResetAsWrittenRecolours | Awesome.Reset |
