# hologram-lab: the discrete core of the hologram simulations

hologram-lab synthesises holograms in two ways. A Fourier hologram starts from a 2D object image: the code transforms it, adds an off-axis reference wave and records the intensity. Reconstruction then isolates one sideband with a binary mask. A Fresnel hologram starts from a 3D point cloud: the code sums spherical waves on a pixel grid. Almost everything in these pipelines is floating-point wave optics, done by library transforms. This project models the parts that can be stated exactly:

- **The letter-H test object** (`FourierHologram`). `generate_object_image` paints three rectangles of ones onto an N x N array of zeros. The model is an `array2<real>` filled by in-place slice assignment.
- **The sideband mask** (`FourierHologram`). Reconstruction builds an N x N boolean mask. It is the left half-plane, the right half-plane, or, for every other selector, a centred square. The mask is then multiplied elementwise into the spectrum. The spectrum is modelled as a grid of abstract elements with a given zero.
- **The cube point cloud** (`FresnelHologram`). `generate_point_cloud` appends six face points for each pair of samples, inside two nested loops. The model is a method with those loops, proved against a specification function.

`Grid` holds what both Fourier steps share: a rectangle given by the bounds of a two-axis NumPy slice, the in-place assignment to it, and a count of the cells it covers.

In the code, the left and right masks partition the grid, and the centre window overlaps both of them once N >= 4 (`HalfPlanesPartition`, `CentreWindowOverlapsHalves`). The code has no minimum-distance floor in the Fresnel sum and no shape check in reconstruction, and the model adds neither.

## Model

| member | source | states |
|---|---|---|
| `Grid.FillRect` | simulations/fourier_hologram_demo.py:25-32 | Slice assignment `a[r0:r1, c0:c1] = v` sets every cell of the rectangle to `v` and leaves every other cell as it was; a slice whose lower bound reaches its upper bound is empty |
| `Grid.CellCountWithinGrid` | simulations/fourier_hologram_demo.py:107 | A slice region inside the grid covers exactly height x width cells |
| `FourierHologram.LeftBar` | simulations/fourier_hologram_demo.py:17-25 | The left stroke `[size//4, size//4+size//2) x [size//4, size//4+size//20)` lies inside the canvas and is `size//2` tall and `size//20` wide |
| `FourierHologram.RightBar` | simulations/fourier_hologram_demo.py:17-28 | The right stroke, with columns `[(3*size)//4 - size//20, (3*size)//4)`, lies inside the canvas and is `size//2` tall and `size//20` wide |
| `FourierHologram.CrossBar` | simulations/fourier_hologram_demo.py:17-32 | The horizontal stroke, with rows from `size//2 - (size//20)//2` and columns `[size//4, (3*size)//4)`, lies inside the canvas and is `size//20` tall |
| `FourierHologram.GenerateObjectImage` | simulations/fourier_hologram_demo.py:12-34 | Returns a size x size array whose every entry is 0 or 1; every cell of the left, right and horizontal strokes is 1; every cell outside the three strokes is 0 |
| `FourierHologram.SmallCanvasIsBlank` | simulations/fourier_hologram_demo.py:17-32 | Below size 20 the stroke width is 0, so no cell belongs to the letter |
| `FourierHologram.LetterHIsConnected` | simulations/fourier_hologram_demo.py:17-32 | From size 20 on the strokes are non-empty; the horizontal stroke lies within the vertical strokes' rows and runs from the left stroke's first column to the right stroke's last column; the vertical strokes do not touch |
| `FourierHologram.LetterHIsMirrorSymmetric` | simulations/fourier_hologram_demo.py:25-32 | When size is a multiple of 4, a cell is in the letter exactly when its mirror image about the vertical centre line is |
| `FourierHologram.MaskRegion` | simulations/fourier_hologram_demo.py:99-107 | Every selector's mask region lies inside the size x size grid |
| `FourierHologram.BuildMask` | simulations/fourier_hologram_demo.py:99-107 | Returns a size x size boolean mask. For `'left'`, a cell is true exactly when its column is `< size//2`. For `'right'`, exactly when its column is `>= size//2`. For any other string, exactly when its row and column both lie in `[size//2 - size//4, size//2 + size//4)` |
| `FourierHologram.ApplyMask` | simulations/fourier_hologram_demo.py:109 | The filtered spectrum has the input's shape, equals the input where the mask is true and is zero where it is false |
| `FourierHologram.FilterSideband` | simulations/fourier_hologram_demo.py:83-109 | With `size` the spectrum's row count: a square spectrum keeps exactly the elements in the selector's mask region and is zero elsewhere; a one-row spectrum of any width, against which the 1 x 1 mask is broadcast, is kept whole for `'right'` and zeroed for every other selector |
| `FourierHologram.HalfPlanesPartition` | simulations/fourier_hologram_demo.py:99-105 | Every cell is in exactly one of the `'left'` and `'right'` masks |
| `FourierHologram.CentreWindowOverlapsHalves` | simulations/fourier_hologram_demo.py:99-107 | For size >= 4 the centred window shares a cell with the left mask and a cell with the right mask; for size < 4 it is empty |
| `FourierHologram.HalfPlaneCellCounts` | simulations/fourier_hologram_demo.py:99-105 | The left mask holds `size*(size//2)` cells and the right mask `size*(size - size//2)`; together they hold `size*size` |
| `FourierHologram.WindowCellCount` | simulations/fourier_hologram_demo.py:106-107 | Every selector other than `'left'` and `'right'` keeps `(2*(size//4))^2` cells |
| `FresnelHologram.RowPoints` | simulations/fresnel_hologram_example.py:19-25 | The inner loop appends 6 points per inner sample |
| `FresnelHologram.CloudPoints` | simulations/fresnel_hologram_example.py:18-25 | Both loops together append `6 * len(xs) * len(ys)` points |
| `FresnelHologram.GeneratePointCloud` | simulations/fresnel_hologram_example.py:11-27 | The point list the nested loops build equals the specification `CloudPoints` of the 20 samples; it holds 2400 points, and its first, third and fifth points are all the corner (-0.5, -0.5, -0.5) |
| `FresnelHologram.RowPointsAt` | simulations/fresnel_hologram_example.py:19-25 | Within one outer sample, the six points for inner sample j sit at indices `6*j .. 6*j+5` |
| `FresnelHologram.CloudPrefix` | simulations/fresnel_hologram_example.py:18-25 | The list only grows by appending: the points for the first k outer samples are a prefix of the final list |
| `FresnelHologram.CloudBlockAt` | simulations/fresnel_hologram_example.py:18-25 | The block at `6*(i*n + j)` is in range and holds the six face points of `(xs[i], ys[j])` |
| `FresnelHologram.CloudPointsAt` | simulations/fresnel_hologram_example.py:18-25 | Indices `6*(i*n + j) + 0..5` hold, in order, `[x, y, -s]`, `[x, y, s]`, `[x, -s, y]`, `[x, s, y]`, `[-s, x, y]` and `[s, x, y]`, with `x = xs[i]` and `y = ys[j]` |
| `FresnelHologram.RowOnCubeFaces` | simulations/fresnel_hologram_example.py:20-25 | Every point one inner loop appends has a coordinate equal to `-s` or `s` |
| `FresnelHologram.CloudOnCubeFaces` | simulations/fresnel_hologram_example.py:18-25 | Every generated point has a coordinate equal to `-s` or `s`, so it lies on a face plane of the cube |
| `FresnelHologram.RowInCube` | simulations/fresnel_hologram_example.py:19-25 | If x and every inner sample lie in `[-s, s]`, every coordinate of the appended points does |
| `FresnelHologram.CloudInCube` | simulations/fresnel_hologram_example.py:14-25 | If every sample lies in `[-s, s]`, every coordinate of every generated point does |
| `FresnelHologram.CloudRepeatsCorner` | simulations/fresnel_hologram_example.py:20-24 | The list is not deduplicated: when both sample sequences start at `-s`, the corner `(-s, -s, -s)` appears at indices 0, 2 and 4 (front, bottom and left face) |

## Left out

- Fourier transforms and complex arithmetic (simulations/fourier_hologram_demo.py:49-65, 83-96, 110-112) are left out: `fft2`, `ifft2`, `fftshift`, `ifftshift`, the complex reference wave, `np.abs(...)**2` and `np.sqrt`. They are floating-point library code. The spectrum at line 109 is a parameter of abstract elements.
- The Fresnel accumulation and normalisation (simulations/fresnel_hologram_example.py:30-83) are left out: `sqrt`, `1/r`, `exp(1j*k*r)` and the division by the maximum. They are floating-point numerics.
- The `np.linspace` sample grids are left out. In generate_point_cloud the 20 samples are the `samples` parameter. The model assumes only their count and their end values. In the Fourier and Fresnel grids (fourier_hologram_demo.py:53-55, 84-86; fresnel_hologram_example.py:46-48) they play no part in the modelled steps.
- Both `main` functions, `hologram_lab/cli.py`, `docs/hologram.js` and the tests are left out. They are plotting, file I/O, argument parsing and a WebGL scene.
- FourierHologram.GenerateObjectImage: `size` is a `nat`. NumPy raises on a negative size in `np.zeros`, and that error is not modelled. Entries are exact reals, not float64.
- FourierHologram.ApplyMask: an element multiplied by `False` is modelled as exactly the given zero. IEEE NaN or infinity times 0 is NaN, which is not modelled.
- FourierHologram.FilterSideband: it requires the spectrum to be square or to have one row. Line 92 broadcasts `sqrt(hologram)`, of shape (size, m), against the size x size `reference_ft`. For size > 1 that gives a square array when m is 1 or size, and otherwise NumPy raises before line 109; that error is not modelled. For size 1 the result is (1, m), and the model covers that case.
- FourierHologram.BuildMask: the defaults `size=512` and `filter_side='left'` (fourier_hologram_demo.py:12, 70) are explicit arguments here, of GenerateObjectImage and BuildMask. The selector is typed as a string. Python also accepts any other object, such as `None`, which takes the `else` branch just as a non-matching string does.
- FresnelHologram.GeneratePointCloud: a point is a three-field datatype. The "3 coordinates per point" shape of the final `np.array` therefore holds by construction. Coordinates are exact reals, not float64.
