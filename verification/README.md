# Car showroom: per-row interaction state

The app lists cars. Each row (`CarItem`) owns two remembered values. `expanded`
starts false and is flipped by the expand button. `currentImageIndex` starts at
0 and is moved by the Previous/Next buttons, which appear only while the row is
expanded. Previous wraps from the first image to the last and Next from the last
to the first. While the row is expanded, the index subscripts `car.detailImages`.

The model has four modules:

- `Carousel` (`carousel.dfy`): the two index transitions as total functions on
  `int`. They behave exactly like the click handlers, which never check their
  input. Alongside them are their modular-arithmetic reference definitions and
  the inverse and periodicity properties.
- `CarData` (`cardata.dfy`): the `Car` record and the assumption that each car
  has at least one detail image.
- `CarItem` (`caritem.dfy`): the row state `RowState(expanded, index)`, one
  click (`Step`), sequences of clicks (`Run`), the on-screen-click discipline
  (`Enabled`, `Accepted`), reachability, and what a row draws (`Render`).
- `Showroom` (`showroom.dfy`): the list of rows. A click goes to one row and
  leaves every other row unchanged.

Kotlin `Int` is 32 bits wide. For a valid index, `0 <= index < size` and
`size <= Int.MAX_VALUE` hold. So `index + 1 <= size - 1` and `index - 1 >= 0`
never overflow, and the model uses unbounded `int` without any wrap-around.

## Model

| member | source | states |
|---|---|---|
| Carousel.Previous | app/src/main/java/com/example/carshowroom/MainActivity.kt:135-140 | a valid index stays valid; on a valid index the step is a no-op exactly when there is one image, and it lands on the last image exactly when it starts from the first |
| Carousel.Next | app/src/main/java/com/example/carshowroom/MainActivity.kt:141-146 | a valid index stays valid; on a valid index the step is a no-op exactly when there is one image, and it lands on the first image exactly when it starts from the last |
| Carousel.NextPreviousInverse | app/src/main/java/com/example/carshowroom/MainActivity.kt:137-143 | Next undoes Previous and Previous undoes Next on every valid index |
| Carousel.NextIsSuccessorModulo | app/src/main/java/com/example/carshowroom/MainActivity.kt:143 | Next agrees with the independent definition `(i + 1) mod n` |
| Carousel.PreviousIsPredecessorModulo | app/src/main/java/com/example/carshowroom/MainActivity.kt:137 | Previous agrees with the independent definition `(i - 1) mod n` (mathematical modulus) |
| Carousel.NextTimesModulo | app/src/main/java/com/example/carshowroom/MainActivity.kt:143 | `k` Next clicks from a valid index land on `(i + k) mod n` |
| Carousel.PreviousTimesModulo | app/src/main/java/com/example/carshowroom/MainActivity.kt:137 | `k` Previous clicks from a valid index land on `(i - k) mod n` |
| Carousel.NextPeriodic | app/src/main/java/com/example/carshowroom/MainActivity.kt:143 | `n` Next clicks return to the starting image |
| Carousel.PreviousPeriodic | app/src/main/java/com/example/carshowroom/MainActivity.kt:137 | `n` Previous clicks return to the starting image |
| Carousel.NextTimesFromFirst | app/src/main/java/com/example/carshowroom/MainActivity.kt:143 | from the first image, `k < n` Next clicks show image `k`, so every image can be reached |
| CarItem.InitialValid | app/src/main/java/com/example/carshowroom/MainActivity.kt:77-78 | a fresh row is collapsed, and its index 0 is valid whenever the car has at least one image |
| CarItem.ToggleExpanded | app/src/main/java/com/example/carshowroom/MainActivity.kt:99 | the expand button negates `expanded` and does not reset the image index |
| CarItem.ToggleInvolutive | app/src/main/java/com/example/carshowroom/MainActivity.kt:99 | two expand clicks restore the row exactly |
| CarItem.Step | app/src/main/java/com/example/carshowroom/MainActivity.kt:97-146 | only the expand button changes expansion, and it never moves the carousel; the carousel buttons move a valid index exactly when there is more than one image; validity is preserved |
| CarItem.CollapsedKeepsIndex | app/src/main/java/com/example/carshowroom/MainActivity.kt:102-147 | the carousel buttons exist only inside the expanded region, so no click that can happen on a collapsed row moves its index |
| CarItem.Run | app/src/main/java/com/example/carshowroom/MainActivity.kt:77-146 | after any sequence of clicks, `expanded` is the start value flipped by the parity of the expand clicks, and a valid index stays valid |
| CarItem.ReachableIffValid | app/src/main/java/com/example/carshowroom/MainActivity.kt:77-147 | for a car with at least one image, a row state can be reached by on-screen clicks if and only if its index is in bounds; either expansion can occur with any image |
| CarItem.Render | app/src/main/java/com/example/carshowroom/MainActivity.kt:88-148 | the summary fields are always drawn; the detail image is drawn exactly when the row is expanded, and it is the car's detail image at the current index |
| CarItem.Replay | app/src/main/java/com/example/carshowroom/MainActivity.kt:77-148 | a fresh row is composed after each click of any sequence; each composition finds its detail image, shows it exactly when the row is then expanded, and shows the image at the index that the clicks so far lead to |
| Showroom.InitialRows | app/src/main/java/com/example/carshowroom/MainActivity.kt:60-78 | the first composition gives one collapsed row on image 0 per car, and these rows are valid when every car has an image |
| Showroom.Dispatch | app/src/main/java/com/example/carshowroom/MainActivity.kt:61-78 | a click on row `i` leaves every other row unchanged, changes row `i`'s expansion exactly when it is the expand button, and preserves validity |
| Showroom.RunScreen | app/src/main/java/com/example/carshowroom/MainActivity.kt:60-78 | after any sequence of clicks, a row that no click addressed is unchanged, and validity of all rows is preserved |
| Showroom.ClicksOnEmptyIffUnaddressed | app/src/main/java/com/example/carshowroom/MainActivity.kt:61-78 | the clicks a row receives are empty exactly when no click of the sequence addresses that row |
| Showroom.RowSeesOnlyItsClicks | app/src/main/java/com/example/carshowroom/MainActivity.kt:61-78 | each row ends in the state its own clicks alone produce, whatever the other rows receive |
| Showroom.ScreenRendersSafely | app/src/main/java/com/example/carshowroom/MainActivity.kt:120-121 | in every screen that can arise from the first composition, an expanded row's subscript into its detail images is in range |

## Left out

- Compose layout and styling are left out because they are framework calls with nothing to state. This covers `CarShowroomApp`'s scaffold, `CarShowroomTopAppBar`, `CarIcon`, `CarInformation`, `CarItemButton` (beyond the expand button's click) and both previews.
- `animateContentSize`/`spring` animation, resource lookups (`painterResource`, `dimensionResource`, `stringResource`) and density conversion are left out. They are framework concerns or floating-point concerns. `Render` keeps only the drawable handle that the detail image is looked up by.
- `MainActivity.onCreate` and the activity lifecycle are Android plumbing and are left out.
- `ui/theme/Theme.kt` is left out. Its palette choice depends on the SDK version and on foreign dynamic-colour calls.
- The `cars` data list and the `Car` class are in package `com.example.carshowroom.data`, which is not part of this model. Each car is assumed to have at least one detail image (`HasDetailImages`). `MainActivity.kt` never checks this, and the data package is not modelled, so the model takes it as a precondition.
- A car with zero detail images is not modelled. Expanding its row fails at `MainActivity.kt:121`, because `detailImages[0]` is evaluated on an empty list. That happens before the Previous/Next row at lines 131-147 is composed, so those handlers can never run for such a car.
- `LazyColumn` may dispose a row's remembered state when the row scrolls out of the composition, and recreate the row fresh when it returns. This virtualisation is framework behaviour and is not modelled. Rows live as long as the screen.
- Threading is not modelled. Clicks are delivered one at a time on the UI thread, so each click is one `Step`.
