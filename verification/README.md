# simxarm task base: workspace limiting and mocap control

A Dafny model of the one piece of real logic in the simxarm task base class
(`Base` in `lerobot/common/envs/simxarm/simxarm/task/base.py`). On every step the class turns a 4-component action
(a 3-D position delta and a gripper scalar) into a mocap control vector. First
it applies a workspace-limiting rule: on each axis where the gripper is already
past a bound of its box above the table, the delta may no longer point further
out. The box is x in [cx - 0.405, cx + 0.045], y in [cy - 0.3, cy + 0.3] and
z in [0.2, 1.2], where (cx, cy) is the table centre (1.655, 0.3).

Everything lives in module `TaskBase` (`base.dfy`):

- `Base` holds the parameters fixed at construction: the gripper rotation
  quaternion, the table centre, the z bounds and the number of substeps.
  `New` builds it. None of these fields changes after construction, so
  `Base` is a datatype. The simulator state that does change is outside the model.
- `_limit_gripper` appears twice. `LimitAxis` and `Limit` are the
  specification, written as functions. `LimitGripper` is the source's
  in-place form: six conditional assignments on an `array<real>`, proved
  equal to `Limit` of the old contents.
- The arithmetic of `_apply_action` is the function `MocapControl`. The
  method `ApplyAction` runs the source's steps: copy the action, let
  `LimitGripper` rewrite the first three slots of the copy (the slice
  `action[:3]` is a view of the copy), scale, and concatenate.
  `ApplyAction` has no `modifies` clause, so the verifier guarantees that
  the caller's action array is left unchanged.
- The shape assertion becomes an error path, `Failure(ActionShape(n))`,
  not a precondition.

The partner of the limiting rule is an independent characterisation.
`LimitIsNearest` proves that the limited delta is the allowed delta nearest
to the request in squared Euclidean distance, and the only one that near.
"Allowed" means no component moves the gripper further past a bound it has
already crossed. `LimitFixesAllowed` proves that `Limit` leaves a delta
unchanged exactly when the delta is already allowed.

Below z = 0.2 the z-delta becomes `max(d, 0)` (base.py:79-80), so downward
motion stops; `DescentStopsBelowFloor` shows this for the action [0, 0, -10, 0].

## Model

| member | source | states |
|---|---|---|
| `TaskBase.New` | lerobot/common/envs/simxarm/simxarm/task/base.py:22-34 | Construction yields a valid task with table centre [1.655, 0.3, 0.63625], maxZ 1.2, minZ 0.2 and 20 substeps. The rotation is the given one, or [0, 1, 0, 0] when none is given. |
| `TaskBase.Lower` | lerobot/common/envs/simxarm/simxarm/task/base.py:69-80 | On every axis the lower bound (cx - 0.105 - 0.3, cy - 0.3, minZ) lies strictly below the upper bound (cx - 0.105 + 0.15, cy + 0.3, maxZ). So the upper and lower rules of one axis never both fire. |
| `TaskBase.DefaultWorkspace` | lerobot/common/envs/simxarm/simxarm/task/base.py:26-28 | For the constructed task the box is x in [1.25, 1.7] = [cx - 0.405, cx + 0.045], y in [0, 0.6] and z in [0.2, 1.2]. |
| `TaskBase.Min` | lerobot/common/envs/simxarm/simxarm/task/base.py:70 | Python's `min`: the result is at most both arguments and is one of them. |
| `TaskBase.Max` | lerobot/common/envs/simxarm/simxarm/task/base.py:72 | Python's `max`: the result is at least both arguments and is one of them. |
| `TaskBase.LimitAxis` | lerobot/common/envs/simxarm/simxarm/task/base.py:69-72 | On one axis the result is the input delta or 0. Past the upper bound it is <= 0. Past the lower bound it is >= 0. |
| `TaskBase.LimitAxisCancelsOutwardMotion` | lerobot/common/envs/simxarm/simxarm/task/base.py:69-80 | The sequential min/max rule equals "0 if the delta points further out past a crossed bound, else the delta", for every input. |
| `TaskBase.LimitAxisIsNearest` | lerobot/common/envs/simxarm/simxarm/task/base.py:69-80 | On one axis the limited delta is the allowed delta nearest to the request, strictly nearer than any other allowed delta. |
| `TaskBase.Limit` | lerobot/common/envs/simxarm/simxarm/task/base.py:68-81 | The result has the input's length. Each component is the input component or 0. Components after the third are untouched. Every axis is allowed: no further motion past a crossed bound. |
| `TaskBase.LimitRules` | lerobot/common/envs/simxarm/simxarm/task/base.py:69-80 | On each axis: above the upper bound the delta becomes min(d, 0), below the lower bound max(d, 0). Within the closed interval, bounds included, it is unchanged. |
| `TaskBase.LimitFixesAllowed` | lerobot/common/envs/simxarm/simxarm/task/base.py:68-81 | `Limit` returns its input unchanged if and only if the input is already allowed. |
| `TaskBase.LimitIdempotent` | lerobot/common/envs/simxarm/simxarm/task/base.py:68-81 | For the same gripper position, limiting the limited delta returns it again. |
| `TaskBase.LimitIsNearest` | lerobot/common/envs/simxarm/simxarm/task/base.py:68-81 | The limited delta is the allowed delta nearest to the request in squared Euclidean distance. Any allowed delta that is as near agrees with it on all three axes. |
| `TaskBase.LimitGripper` | lerobot/common/envs/simxarm/simxarm/task/base.py:68-81 | The in-place form: after the six conditional assignments the array holds `Limit` of its old contents, and that is allowed. The method returns the same array. |
| `TaskBase.PerSubstep` | lerobot/common/envs/simxarm/simxarm/task/base.py:87-89 | Scaling by 1/nSubsteps keeps length and sign. nSubsteps increments add back up to the step's delta. |
| `TaskBase.MocapControl` | lerobot/common/envs/simxarm/simxarm/task/base.py:83-91 | It fails with ActionShape exactly when the action does not have 4 components. Otherwise the vector has 3 + (rotation length) + 2 elements. Elements 0-2 times nSubsteps are the limited delta. Next comes the rotation, then action[3] twice. |
| `TaskBase.ControlRespectsWorkspace` | lerobot/common/envs/simxarm/simxarm/task/base.py:83-91 | Each sent position increment is action[i] / nSubsteps or 0. The increment is allowed, and limiting it again changes nothing. |
| `TaskBase.DefaultControlVector` | lerobot/common/envs/simxarm/simxarm/task/base.py:86-91 | With the default task the vector has 9 elements: elements 0-2 are the limited delta times 1/20, elements 3-6 are [0, 1, 0, 0] and elements 7 and 8 both equal action[3]. |
| `TaskBase.DescentStopsBelowFloor` | lerobot/common/envs/simxarm/simxarm/task/base.py:77-80 | For the default task, with the gripper below z = 0.2, the action [0, 0, -10, 0] yields a z increment of 0. |
| `TaskBase.ApplyAction` | lerobot/common/envs/simxarm/simxarm/task/base.py:83-91 | The copying, in-place form returns exactly `MocapControl` of the action. Without a `modifies` clause, the caller's action is unchanged. |

## Left out

- Simulator calls are outside the model. `get_site_xpos` (the gripper position) is a parameter. The control vector is returned instead of being passed to `mocap.apply_action`; the mocap module is not part of this model.
- `step`, `reset`, `_reset_sim`, `_env_setup`, `_set_gripper`, `_step_callback` and `get_obs` are left out. They write or read simulator buffers and advance the physics engine. Besides the simulator calls, `step` asserts the action's shape (the same check `_apply_action` makes, which the model covers), sets `done = False` and fills the duplicated `is_success`/`success` keys from subclass hooks.
- The action-space assertion in `step` (`self.action_space.contains(action)`, base.py:145) is not modelled: the action space's bounds are declared by the robotics framework, outside this file. `_apply_action` itself does not check the range, so `MocapControl` and `ApplyAction` accept any 4-component action.
- `render`, `_render_callback`, `_viewer_setup` and `close` are left out: they are rendering, camera and window plumbing.
- The properties `dt`, `eef`, `obj` and `robot_state` are left out: they are simulator lookups.
- The hooks `is_success`, `get_reward` and `_sample_goal` are left out. Subclasses define them.
- Arithmetic is exact (`real`). IEEE double rounding of `1.655 - 0.105 + 0.15` and of the `* (1/20)` scaling is not modelled, so a result exactly at a bound may differ from the float computation. The float32 cast of the gripper rotation is not modelled either, and neither are NaN deltas.
- The action is a flat sequence or array. Only its length is checked, not the full numpy shape.
